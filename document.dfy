/**
 * `generate_fsh`: one block per admitted row, in row order, blank lines
 * between blocks and a single newline at the end.
 */
module Document {
  import opened Wrappers
  import opened Text
  import opened Escape
  import opened ExtraLangs
  import opened Emit

  /** A row is admitted when neither its code nor its display value is blank. */
  predicate Admitted(row: Row, b: Bindings) {
    !IsBlank(Cell(row, b.code)) && !IsBlank(Cell(row, b.display))
  }

  /** The header of an admitted row: trimmed code as is, trimmed display escaped. */
  function Header(row: Row, b: Bindings): string
    requires Admitted(row, b)
  {
    HeaderLine(Strip(Cell(row, b.code).value), FshEscapeText(Strip(Cell(row, b.display).value)))
  }

  /** The block of an admitted row: its header, then its designations. */
  function Block(row: Row, b: Bindings, extra: seq<LangEntry>): seq<string>
    requires Admitted(row, b)
  {
    [Header(row, b)] + Designations(row, Slots(b, extra))
  }

  /** The blocks of the admitted rows, in row order. */
  function Blocks(rows: seq<Row>, b: Bindings, extra: seq<LangEntry>): seq<seq<string>> {
    if rows == [] then []
    else
      var r := rows[|rows| - 1];
      Blocks(rows[..|rows| - 1], b, extra) + (if Admitted(r, b) then [Block(r, b, extra)] else [])
  }

  /** Where in `rows` the admitted rows sit. */
  function AdmittedPositions(rows: seq<Row>, b: Bindings): (ix: seq<nat>)
    ensures forall k :: 0 <= k < |ix| ==> ix[k] < |rows|
  {
    if rows == [] then []
    else
      AdmittedPositions(rows[..|rows| - 1], b) + (if Admitted(rows[|rows| - 1], b) then [|rows| - 1] else [])
  }

  /** Blocks joined by one blank line. */
  function JoinBlocks(blocks: seq<seq<string>>): string
    requires blocks != []
  {
    if |blocks| == 1 then JoinLines(blocks[0])
    else JoinBlocks(blocks[..|blocks| - 1]) + "\n\n" + JoinLines(blocks[|blocks| - 1])
  }

  /** The document: the joined blocks and one final newline; just a newline when there are none. */
  function Render(blocks: seq<seq<string>>): string {
    if blocks == [] then "\n" else JoinBlocks(blocks) + "\n"
  }

  /** `out_lines` as `generate_fsh` builds it: every block followed by an empty line. */
  function Flatten(blocks: seq<seq<string>>): seq<string> {
    if blocks == [] then []
    else Flatten(blocks[..|blocks| - 1]) + blocks[|blocks| - 1] + [""]
  }

  /** `generate_fsh(df, code_col, uz_col, ru_col, en_col, la_col)`. */
  method GenerateFsh(columns: seq<string>, rows: seq<Row>, b: Bindings) returns (text: string)
    ensures text == Render(Blocks(rows, b, DetectedLangs(columns)))
  {
    var outLines: seq<string> := [];
    var extraLangs := DetectExtraLangs(columns);
    for i := 0 to |rows|
      invariant outLines == Flatten(Blocks(rows[..i], b, extraLangs))
    {
      var row := rows[i];
      var codeVal := Cell(row, b.code);
      var uzVal := Cell(row, b.display);
      if codeVal.None? || Strip(codeVal.value) == "" {
        BlocksSkip(rows, b, extraLangs, i);
        continue;
      }
      if uzVal.None? || Strip(uzVal.value) == "" {
        BlocksSkip(rows, b, extraLangs, i);
        continue;
      }
      BlocksAdmit(rows, b, extraLangs, i);
      outLines := AppendBlock(outLines, row, b, extraLangs);
      outLines := outLines + [""];
    }
    assert rows[..|rows|] == rows;
    text := RStrip(JoinLines(outLines)) + "\n";
    BlocksEndInQuote(rows, b, extraLangs);
    RenderFromLines(Blocks(rows, b, extraLangs));
  }

  /** A skipped row adds nothing to the blocks. */
  lemma BlocksSkip(rows: seq<Row>, b: Bindings, extra: seq<LangEntry>, i: nat)
    requires i < |rows| && !Admitted(rows[i], b)
    ensures Blocks(rows[..i + 1], b, extra) == Blocks(rows[..i], b, extra)
  {
    assert rows[..i + 1][..i] == rows[..i];
  }

  /** An admitted row adds its block, and `out_lines` grows by the block and an empty line. */
  lemma BlocksAdmit(rows: seq<Row>, b: Bindings, extra: seq<LangEntry>, i: nat)
    requires i < |rows| && Admitted(rows[i], b)
    ensures Blocks(rows[..i + 1], b, extra) == Blocks(rows[..i], b, extra) + [Block(rows[i], b, extra)]
    ensures Flatten(Blocks(rows[..i + 1], b, extra)) == Flatten(Blocks(rows[..i], b, extra)) + Block(rows[i], b, extra) + [""]
  {
    assert rows[..i + 1][..i] == rows[..i];
    var done := Blocks(rows[..i], b, extra);
    assert (done + [Block(rows[i], b, extra)])[..|done|] == done;
  }

  /**
   * The body of `generate_fsh`'s row loop for an admitted row: the header,
   * ru, en and la, then the extra languages of `extra_langs.items()` with ru,
   * en and la skipped.
   */
  method AppendBlock(outLines: seq<string>, row: Row, b: Bindings, extraLangs: seq<LangEntry>)
    returns (out: seq<string>)
    requires Admitted(row, b)
    ensures out == outLines + Block(row, b, extraLangs)
  {
    var codeStr := Strip(Cell(row, b.code).value);
    var uzStr := FshEscapeText(Strip(Cell(row, b.display).value));
    ghost var head := [HeaderLine(codeStr, uzStr)];
    out := outLines + [HeaderLine(codeStr, uzStr)];
    ghost var slots: seq<Slot> := [];
    assert out == outLines + (head + Designations(row, slots));

    var lines := BuildDesignationBlock(row, "ru", b.ru, true);
    ExtendRow(outLines, head, row, slots, Slot("ru", b.ru, true), [Slot("ru", b.ru, true)], out, lines);
    out, slots := out + lines, [Slot("ru", b.ru, true)];
    lines := BuildDesignationBlock(row, "en", b.en, false);
    ExtendRow(outLines, head, row, slots, Slot("en", b.en, false), [Slot("ru", b.ru, true), Slot("en", b.en, false)], out, lines);
    out, slots := out + lines, [Slot("ru", b.ru, true), Slot("en", b.en, false)];
    lines := BuildDesignationBlock(row, "la", b.la, false);
    ExtendRow(outLines, head, row, slots, Slot("la", b.la, false), FixedSlots(b), out, lines);
    out, slots := out + lines, FixedSlots(b);
    assert slots == FixedSlots(b) + ExtraSlots(extraLangs[..0]) by {
      assert extraLangs[..0] == [];
      assert slots + [] == slots;
    }

    for j := 0 to |extraLangs|
      invariant slots == FixedSlots(b) + ExtraSlots(extraLangs[..j])
      invariant out == outLines + (head + Designations(row, slots))
    {
      var e := extraLangs[j];
      SlotsStep(b, extraLangs, j);
      if e.tag in {"ru", "en", "la"} {
        assert IsFixedTag(e.tag);
        assert slots + [] == slots;
        continue;
      }
      lines := BuildDesignationBlock(row, e.tag, Some(e.column), false);
      ExtendRow(outLines, head, row, slots, SlotOf(e), slots + [SlotOf(e)], out, lines);
      out, slots := out + lines, slots + [SlotOf(e)];
    }
    assert extraLangs[..|extraLangs|] == extraLangs;
    HeaderFromCells(row, b, codeStr, uzStr);
  }

  /** The header `generate_fsh` appends is the one `Header` describes. */
  lemma HeaderFromCells(row: Row, b: Bindings, codeStr: string, uzStr: string)
    requires Admitted(row, b)
    requires codeStr == Strip(Cell(row, b.code).value)
    requires uzStr == FshEscapeText(Strip(Cell(row, b.display).value))
    ensures HeaderLine(codeStr, uzStr) == Header(row, b)
  {
  }

  /** One `out_lines.extend(...)` while a block is being written: slot `s` is tried after `slots`. */
  lemma ExtendRow(base: seq<string>, head: seq<string>, row: Row, slots: seq<Slot>, s: Slot, next: seq<Slot>,
                  out: seq<string>, lines: seq<string>)
    requires next == slots + [s]
    requires out == base + (head + Designations(row, slots))
    requires lines == DesignationLines(row, s)
    ensures out + lines == base + (head + Designations(row, next))
  {
    assert next[..|slots|] == slots;
    var d := Designations(row, slots);
    calc {
      out + lines;
      (base + (head + d)) + lines;
      base + ((head + d) + lines);
      base + (head + (d + lines));
    }
  }

  /** One turn of the loop over the extra languages. */
  lemma SlotsStep(b: Bindings, extra: seq<LangEntry>, j: nat)
    requires j < |extra|
    ensures FixedSlots(b) + ExtraSlots(extra[..j + 1])
         == (FixedSlots(b) + ExtraSlots(extra[..j])) + (if IsFixedTag(extra[j].tag) then [] else [SlotOf(extra[j])])
  {
    assert extra[..j + 1][..j] == extra[..j];
  }

  /** A line whose last character is a double quote. */
  predicate EndsInQuote(line: string) {
    line != [] && line[|line| - 1] == '"'
  }

  /** Every block has lines, and its last line ends in a closing quote. */
  predicate QuoteTerminated(blocks: seq<seq<string>>) {
    forall k :: 0 <= k < |blocks| ==> blocks[k] != [] && EndsInQuote(blocks[k][|blocks[k]| - 1])
  }

  /** Header and value lines end with the quote that closes their literal. */
  lemma LinesEndInQuote(code: string, display: string, value: string)
    ensures EndsInQuote(HeaderLine(code, display))
    ensures EndsInQuote(ValueLine(value))
  {
    var h := HeaderLine(code, display);
    var v := ValueLine(value);
    assert h[|h| - 1] == '"';
    assert v[|v| - 1] == '"';
  }

  /** The last designation line, if any, is a value line and so ends in a quote. */
  lemma {:induction false} DesignationsEndInQuote(row: Row, slots: seq<Slot>)
    ensures var d := Designations(row, slots); d == [] || EndsInQuote(d[|d| - 1])
    decreases |slots|
  {
    if slots != [] {
      var prefix := slots[..|slots| - 1];
      var s := slots[|slots| - 1];
      DesignationsEndInQuote(row, prefix);
      if HasValue(row, s.column) {
        LinesEndInQuote("", "", DesignationValue(row, s.column));
      }
    }
  }

  /** A block ends with its header or with its last value line, both closed by a quote. */
  lemma BlockEndsInQuote(row: Row, b: Bindings, extra: seq<LangEntry>)
    requires Admitted(row, b)
    ensures var block := Block(row, b, extra); block != [] && EndsInQuote(block[|block| - 1])
  {
    var d := Designations(row, Slots(b, extra));
    DesignationsEndInQuote(row, Slots(b, extra));
    LinesEndInQuote(Strip(Cell(row, b.code).value), FshEscapeText(Strip(Cell(row, b.display).value)), "");
    QuotedAfterHeader(Header(row, b), d);
  }

  /** A header followed by lines whose last one, if any, ends in a quote. */
  lemma QuotedAfterHeader(h: string, d: seq<string>)
    requires EndsInQuote(h) && (d == [] || EndsInQuote(d[|d| - 1]))
    ensures var block := [h] + d; block != [] && EndsInQuote(block[|block| - 1])
  {
  }

  /** Adding a quote-terminated block keeps the document quote-terminated. */
  lemma QuoteTerminatedSnoc(blocks: seq<seq<string>>, x: seq<string>)
    requires QuoteTerminated(blocks) && x != [] && EndsInQuote(x[|x| - 1])
    ensures QuoteTerminated(blocks + [x])
  {
  }

  lemma {:induction false} BlocksEndInQuote(rows: seq<Row>, b: Bindings, extra: seq<LangEntry>)
    ensures QuoteTerminated(Blocks(rows, b, extra))
    decreases |rows|
  {
    if rows != [] {
      var r := rows[|rows| - 1];
      var done := Blocks(rows[..|rows| - 1], b, extra);
      BlocksEndInQuote(rows[..|rows| - 1], b, extra);
      if Admitted(r, b) {
        BlockEndsInQuote(r, b, extra);
        QuoteTerminatedSnoc(done, Block(r, b, extra));
      } else {
        assert done + [] == done;
      }
    }
  }

  /** Joining `out_lines` gives the blocks joined by blank lines, plus the newline of the last empty line. */
  lemma {:induction false} JoinFlatten(blocks: seq<seq<string>>)
    requires blocks != [] && QuoteTerminated(blocks)
    ensures JoinLines(Flatten(blocks)) == JoinBlocks(blocks) + "\n"
    decreases |blocks|
  {
    var pre := blocks[..|blocks| - 1];
    var last := blocks[|blocks| - 1];
    assert JoinLines(last + [""]) == JoinLines(last) + "\n" by {
      JoinLinesAppend(last, [""]);
      assert JoinLines([""]) == "";
    }
    if |blocks| == 1 {
      assert Flatten(blocks) == last + [""];
    } else {
      assert QuoteTerminated(pre) by {
        forall k | 0 <= k < |pre| ensures pre[k] == blocks[k] { }
      }
      JoinFlatten(pre);
      var fp := Flatten(pre);
      assert Flatten(blocks) == fp + (last + [""]);
      assert JoinLines(Flatten(blocks)) == JoinLines(fp) + "\n" + JoinLines(last + [""]) by {
        assert fp != [];
        JoinLinesAppend(fp, last + [""]);
      }
      Separators(JoinBlocks(pre), JoinLines(last));
    }
  }

  lemma Separators(a: string, b: string)
    ensures (a + "\n") + "\n" + (b + "\n") == a + "\n\n" + b + "\n"
  {
  }

  /** The joined blocks end with the closing quote of their last line. */
  lemma {:induction false} JoinBlocksEndsInQuote(blocks: seq<seq<string>>)
    requires blocks != [] && QuoteTerminated(blocks)
    ensures EndsInQuote(JoinBlocks(blocks))
  {
    var last := blocks[|blocks| - 1];
    JoinLinesLastChar(last);
  }

  /** `rstrip()` removes the final newline and nothing before a closing quote. */
  lemma RStripNewline(x: string)
    requires EndsInQuote(x)
    ensures RStrip(x + "\n") == x
  {
    assert (x + "\n")[..|x|] == x;
  }

  /** `"\n".join(out_lines).rstrip() + "\n"` is the rendered document. */
  lemma RenderFromLines(blocks: seq<seq<string>>)
    requires QuoteTerminated(blocks)
    ensures RStrip(JoinLines(Flatten(blocks))) + "\n" == Render(blocks)
  {
    if blocks != [] {
      JoinFlatten(blocks);
      JoinBlocksEndsInQuote(blocks);
      RStripNewline(JoinBlocks(blocks));
    }
  }

  /**
   * An admitted row's block: the header `* #<code> "<display>"` with the
   * code trimmed and the display trimmed and escaped, then a language line
   * and a value line for every filled slot, so `1 + 2k` entries of `out_lines` in all.
   */
  lemma BlockLayout(row: Row, b: Bindings, extra: seq<LangEntry>)
    requires Admitted(row, b)
    ensures var block := Block(row, b, extra); var f := Filled(row, Slots(b, extra));
      && block[0] == HeaderLine(Strip(Cell(row, b.code).value), FshEscapeText(Strip(Cell(row, b.display).value)))
      && |block| == 1 + 2 * |f|
      && forall k :: 0 <= k < |f| ==>
           HasValue(row, f[k].column)
           && block[1 + 2 * k] == LanguageLine(f[k].tag, f[k].first)
           && block[2 + 2 * k] == ValueLine(DesignationValue(row, f[k].column))
  {
    var slots := Slots(b, extra);
    var d := Designations(row, slots);
    var block := Block(row, b, extra);
    DesignationsLayout(row, slots);
    assert block == [Header(row, b)] + d;
    forall k | 0 <= k < 2 * |Filled(row, slots)|
      ensures block[1 + k] == d[k]
    {
    }
  }

  /**
   * Only the ru slot can carry `[0]`: a block has one `[0]` line when ru has
   * a value, right after the header, and none otherwise.
   */
  lemma BlockInitialMarker(row: Row, b: Bindings, extra: seq<LangEntry>)
    requires Admitted(row, b)
    ensures var block := Block(row, b, extra);
      && CountInitial(block) == (if HasValue(row, b.ru) then 1 else 0)
      && (HasValue(row, b.ru) ==> |block| > 1 && block[1] == LanguageLine("ru", true))
  {
    var slots := Slots(b, extra);
    var h := Header(row, b);
    var d := Designations(row, slots);
    SlotOrder(b, extra);
    InitialLineCount(row, slots);
    CountInitialAppend([h], d);
    HeaderIsNotInitial(Strip(Cell(row, b.code).value), FshEscapeText(Strip(Cell(row, b.display).value)));
    assert CountInitial([h]) == 0 by {
      var none: seq<string> := [];
      assert [h][..0] == none;
    }
    if HasValue(row, b.ru) {
      BlockLayout(row, b, extra);
      FilledSlots(row, slots);
      var f := Filled(row, slots);
      var ix := FilledPositions(row, slots);
      assert 0 in ix;
      assert f[0] == slots[0];
    }
  }

  /** The admitted positions are increasing, and a position is listed exactly when its row is admitted. */
  lemma {:induction false} AdmittedPositionsSorted(rows: seq<Row>, b: Bindings)
    ensures var ix := AdmittedPositions(rows, b);
      && (forall k, l :: 0 <= k < l < |ix| ==> ix[k] < ix[l])
      && (forall j :: 0 <= j < |rows| ==> (j in ix <==> Admitted(rows[j], b)))
    decreases |rows|
  {
    if rows != [] {
      AdmittedPositionsSorted(rows[..|rows| - 1], b);
    }
  }

  /** The `k`-th block is the block of the `k`-th admitted row. */
  lemma {:induction false} BlockAt(rows: seq<Row>, b: Bindings, extra: seq<LangEntry>, k: nat)
    ensures |Blocks(rows, b, extra)| == |AdmittedPositions(rows, b)|
    ensures var ix := AdmittedPositions(rows, b);
      k < |ix| ==> Admitted(rows[ix[k]], b) && Blocks(rows, b, extra)[k] == Block(rows[ix[k]], b, extra)
    decreases |rows|
  {
    if rows != [] {
      var pre := rows[..|rows| - 1];
      BlockAt(pre, b, extra, k);
      var ix := AdmittedPositions(pre, b);
      if k < |ix| {
        assert rows[ix[k]] == pre[ix[k]];
      }
    }
  }

  /**
   * The blocks are those of the admitted rows, one each, in input row
   * order: `ix` lists the admitted positions in increasing order.
   */
  lemma BlocksInRowOrder(rows: seq<Row>, b: Bindings, extra: seq<LangEntry>)
    ensures var bs := Blocks(rows, b, extra); var ix := AdmittedPositions(rows, b);
      && |bs| == |ix|
      && (forall k :: 0 <= k < |ix| ==> Admitted(rows[ix[k]], b) && bs[k] == Block(rows[ix[k]], b, extra))
      && (forall k, l :: 0 <= k < l < |ix| ==> ix[k] < ix[l])
      && (forall j :: 0 <= j < |rows| ==> (j in ix <==> Admitted(rows[j], b)))
  {
    AdmittedPositionsSorted(rows, b);
    BlockAt(rows, b, extra, 0);
    forall k | 0 <= k < |AdmittedPositions(rows, b)|
      ensures Admitted(rows[AdmittedPositions(rows, b)[k]], b)
           && Blocks(rows, b, extra)[k] == Block(rows[AdmittedPositions(rows, b)[k]], b, extra)
    {
      BlockAt(rows, b, extra, k);
    }
  }

  /** With no admitted row, and in particular when no row has the code column, the document is one newline. */
  lemma NothingAdmitted(rows: seq<Row>, b: Bindings, extra: seq<LangEntry>)
    ensures Blocks(rows, b, extra) == [] <==> forall j :: 0 <= j < |rows| ==> !Admitted(rows[j], b)
    ensures (forall j :: 0 <= j < |rows| ==> b.code !in rows[j]) ==> Render(Blocks(rows, b, extra)) == "\n"
  {
    BlocksInRowOrder(rows, b, extra);
    var ix := AdmittedPositions(rows, b);
    if ix != [] {
      assert ix[0] in ix;
    }
  }

  /**
   * The document ends in exactly one newline: it is just `"\n"` when
   * there are no blocks, and otherwise its newline follows a closing quote.
   */
  lemma RenderShape(blocks: seq<seq<string>>)
    requires QuoteTerminated(blocks)
    ensures var t := Render(blocks);
      && t != [] && t[|t| - 1] == '\n'
      && (t == "\n" <==> blocks == [])
      && (blocks != [] ==> |t| >= 2 && t[|t| - 2] == '"')
  {
    if blocks != [] {
      JoinBlocksEndsInQuote(blocks);
    }
  }

  /** A block header line. */
  predicate IsHeaderLine(line: string) {
    StartsWith(line, "* #")
  }

  function CountHeaders(lines: seq<string>): nat {
    if lines == [] then 0
    else CountHeaders(lines[..|lines| - 1]) + (if IsHeaderLine(lines[|lines| - 1]) then 1 else 0)
  }

  lemma {:induction false} CountHeadersAppend(a: seq<string>, c: seq<string>)
    ensures CountHeaders(a + c) == CountHeaders(a) + CountHeaders(c)
    decreases |c|
  {
    if c == [] {
      assert a + c == a;
    } else {
      assert (a + c)[..|a + c| - 1] == a + c[..|c| - 1];
      CountHeadersAppend(a, c[..|c| - 1]);
    }
  }

  /** A line that opens with a space is not a header. */
  lemma IndentedIsNoHeader(line: string)
    requires line != [] && line[0] == ' '
    ensures !IsHeaderLine(line)
  {
    if |line| >= 3 {
      assert line[..3][0] == ' ';
    }
  }

  /** Designation lines are indented, so none of them is a header. */
  lemma {:induction false} DesignationsHaveNoHeader(row: Row, slots: seq<Slot>)
    ensures CountHeaders(Designations(row, slots)) == 0
    decreases |slots|
  {
    if slots != [] {
      var pre := slots[..|slots| - 1];
      var s := slots[|slots| - 1];
      var lines := DesignationLines(row, s);
      DesignationsHaveNoHeader(row, pre);
      CountHeadersAppend(Designations(row, pre), lines);
      if lines != [] {
        DesignationPairHasNoHeader(s.tag, s.first, DesignationValue(row, s.column));
      }
    }
  }

  /** A language line and a value line hold no header. */
  lemma DesignationPairHasNoHeader(tag: string, first: bool, value: string)
    ensures CountHeaders([LanguageLine(tag, first), ValueLine(value)]) == 0
  {
    var x := LanguageLine(tag, first);
    var y := ValueLine(value);
    assert x[0] == ' ' && y[0] == ' ';
    IndentedIsNoHeader(x);
    IndentedIsNoHeader(y);
    var none: seq<string> := [];
    assert [x][..0] == none;
    assert CountHeaders([x]) == 0;
    assert [x, y][..1] == [x];
    assert CountHeaders([x, y]) == CountHeaders([x]);
  }

  /** A header line starts with `* #`. */
  lemma HeaderLineIsHeader(code: string, display: string)
    ensures IsHeaderLine(HeaderLine(code, display))
  {
    assert HeaderLine(code, display)[..3] == "* #";
  }

  /**
   * `fsh_escape` leaves a line feed as it is, and the header is one entry of
   * `out_lines`: a display with a line feed at `k` gives one header entry
   * whose text goes on, after that line feed, with the rest of the display.
   * When that rest starts with `* #`, the text has a second line that reads
   * like a header.
   */
  lemma HeaderEntrySpansLines(code: string, d: string, k: nat)
    requires '\\' !in d && '"' !in d && '\r' !in d
    requires k < |d| && d[k] == '\n'
    ensures FshEscapeText(d) == d
    ensures var h := HeaderLine(code, FshEscapeText(d));
      && CountHeaders([h]) == 1
      && h[|code| + 5 + k] == '\n'
      && h[|code| + 6 + k..] == d[k + 1..] + "\""
  {
    EscapeLeavesPlainText(d);
    var h := HeaderLine(code, d);
    HeaderLineIsHeader(code, d);
    var none: seq<string> := [];
    assert [h][..0] == none;
    assert h == "* #" + code + " \"" + d[..k + 1] + (d[k + 1..] + "\"");
  }

  /** A block holds exactly one header entry. */
  lemma BlockHeaderCount(row: Row, b: Bindings, extra: seq<LangEntry>)
    requires Admitted(row, b)
    ensures CountHeaders(Block(row, b, extra)) == 1
  {
    var h := Header(row, b);
    var d := Designations(row, Slots(b, extra));
    DesignationsHaveNoHeader(row, Slots(b, extra));
    CountHeadersAppend([h], d);
    HeaderLineIsHeader(Strip(Cell(row, b.code).value), FshEscapeText(Strip(Cell(row, b.display).value)));
    var none: seq<string> := [];
    assert [h][..0] == none;
  }

  /** `out_lines` holds one header entry per admitted row. */
  lemma {:induction false} HeaderCount(rows: seq<Row>, b: Bindings, extra: seq<LangEntry>)
    ensures CountHeaders(Flatten(Blocks(rows, b, extra))) == |AdmittedPositions(rows, b)|
    decreases |rows|
  {
    if rows != [] {
      var pre := rows[..|rows| - 1];
      var r := rows[|rows| - 1];
      HeaderCount(pre, b, extra);
      if Admitted(r, b) {
        var done := Blocks(pre, b, extra);
        var block := Block(r, b, extra);
        assert Blocks(rows, b, extra) == done + [block];
        assert (done + [block])[..|done|] == done;
        assert Flatten(Blocks(rows, b, extra)) == (Flatten(done) + block) + [""];
        CountHeadersAppend(Flatten(done) + block, [""]);
        CountHeadersAppend(Flatten(done), block);
        BlockHeaderCount(r, b, extra);
        assert !IsHeaderLine("");
        var none: seq<string> := [];
        assert [""][..0] == none;
        assert CountHeaders([""]) == 0;
      } else {
        var done := Blocks(pre, b, extra);
        assert Blocks(rows, b, extra) == done by {
          assert Blocks(rows, b, extra) == done + [];
          assert done + [] == done;
        }
        assert |AdmittedPositions(rows, b)| == |AdmittedPositions(pre, b)|;
      }
    }
  }
}
