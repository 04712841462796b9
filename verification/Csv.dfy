/** One line of comma-separated values (src/common/sbfCsvParser.c). */
module Csv {
  import opened Wrappers

  const QUOTE := '"'

  predicate Blank(c: char) { c == ' ' || c == '\t' }

  function SkipBlanks(b: string): (r: string)
    ensures |r| <= |b| && (r != [] ==> !Blank(r[0]))
  {
    if b != [] && Blank(b[0]) then SkipBlanks(b[1..]) else b
  }

  function TrimRight(s: string): string {
    if s != [] && s[|s| - 1] == ' ' then TrimRight(s[..|s| - 1]) else s
  }

  /** A field cut off the front of a line, and whether another one follows. */
  datatype Cut = Cut(field: string, rest: string, comma: bool) | Bad

  /** The inner loop of sbfCsvParser_next: acc is what the field has so far. */
  function Field(b: string, acc: string, quoted: bool, separator: char): (r: Cut)
    ensures r.Cut? ==> |r.rest| <= |b| && (r.comma ==> |r.rest| < |b|)
    decreases |b|
  {
    if b == [] then Cut(acc, [], false)
    else
      var c, r := b[0], b[1..];
      if !quoted && c == separator then Cut(TrimRight(acc), r, true)
      else if quoted && c == QUOTE then
        if r == [] then Cut(acc, [], false)
        else if r[0] != QUOTE then AfterQuote(SkipBlanks(r), acc, separator)
        else Field(r[1..], acc + [QUOTE], quoted, separator)
      else Field(r, acc + [c], quoted, separator)
  }

  /** What follows a closing quote and blanks. A separator that ends the line is taken as its end. */
  function AfterQuote(t: string, acc: string, separator: char): Cut {
    if t == [] then Cut(acc, [], false)
    else if t[0] != separator then Bad
    else Cut(acc, t[1..], t[1..] != [])
  }

  /** The field that the parser cuts off where a line goes on after blanks. */
  function FirstField(r: string, separator: char): Cut
    requires r != []
  {
    if r[0] == QUOTE then Field(r[1..], [], true, separator) else Field(r, [], false, separator)
  }

  /** The fields of the rest of a line, None for EINVAL. */
  function Fields(b: string, separator: char): Option<seq<string>>
    decreases |b|
  {
    var r := SkipBlanks(b);
    if r == [] then Some([""])
    else
      var cut := FirstField(r, separator);
      if cut.Bad? then None
      else if !cut.comma then Some([cut.field])
      else
        var more := Fields(cut.rest, separator);
        if more.None? then None else Some([cut.field] + more.value)
  }

  // ---------------------------------------------------------------------------------------------
  // The loops
  // ---------------------------------------------------------------------------------------------

  method SkipBlanksFrom(buf: string, off0: nat) returns (off: nat)
    requires off0 <= |buf|
    ensures off0 <= off <= |buf| && buf[off..] == SkipBlanks(buf[off0..])
  {
    off := off0;
    while off != |buf| && Blank(buf[off])
      invariant off0 <= off <= |buf| && SkipBlanks(buf[off..]) == SkipBlanks(buf[off0..])
      decreases |buf| - off
    {
      assert buf[off..][1..] == buf[off + 1..];
      off := off + 1;
    }
  }

  method TrimmedRight(s: string) returns (r: string)
    ensures r == TrimRight(s)
  {
    r := s;
    while |r| > 0 && r[|r| - 1] == ' '
      invariant TrimRight(r) == TrimRight(s)
    {
      r := r[..|r| - 1];
    }
  }

  /** The inner loop */
  method NextField(buf: string, off0: nat, quoted: bool, separator: char)
    returns (ok: bool, next: string, off: nat, comma: bool)
    requires off0 <= |buf|
    ensures off0 <= off <= |buf|
    ensures ok ==> var cut := Field(buf[off0..], [], quoted, separator);
                   cut.Cut? && cut.field == next && cut.comma == comma && (comma ==> cut.rest == buf[off..])
    ensures !ok ==> Field(buf[off0..], [], quoted, separator).Bad?
  {
    ok, next, off, comma := true, [], off0, false;
    while off != |buf|
      invariant off0 <= off <= |buf|
      invariant Field(buf[off..], next, quoted, separator) == Field(buf[off0..], [], quoted, separator)
      decreases |buf| - off
    {
      var c := buf[off];
      assert buf[off..][1..] == buf[off + 1..];
      off := off + 1;
      if !quoted && c == separator {
        next := TrimmedRight(next);
        comma := true;
        return;
      }
      if quoted && c == QUOTE {
        if off == |buf| {
          return;
        }
        if buf[off] != QUOTE {
          off := SkipBlanksFrom(buf, off);
          if off != |buf| {
            off := off + 1;
            if buf[off - 1] != separator {
              ok := false;
              return;
            }
          }
          if off != |buf| {
            comma := true;
          }
          return;
        } else {
          assert buf[off..][1..] == buf[off + 1..];
          off := off + 1;
        }
      }
      next := next + [c];
    }
  }

  /** Another field in front of what follows. */
  function Before(fields: seq<string>, more: Option<seq<string>>): Option<seq<string>> {
    if more.None? then None else Some(fields + more.value)
  }

  /** The outer loop of sbfCsvParser_next, over one line */
  method ParseLine(buf: string, separator: char) returns (fields: Option<seq<string>>)
    ensures fields == Fields(buf, separator)
  {
    var list: seq<string> := [];
    var off, comma := 0, true;
    NothingBefore(Fields(buf, separator));
    assert buf[0..] == buf;
    while comma
      invariant off <= |buf|
      invariant comma ==> Before(list, Fields(buf[off..], separator)) == Fields(buf, separator)
      invariant !comma ==> Some(list) == Fields(buf, separator)
      decreases |buf| - off, comma
    {
      ghost var rest := buf[off..];
      off := SkipBlanksFrom(buf, off);
      if off == |buf| {
        assert Fields(rest, separator) == Some([""]);
        list := list + [""];
        comma := false;
      } else {
        var ok, next;
        ok, next, off, comma := OneField(buf, off, separator);
        FieldsStep(rest, list, separator);
        if !ok {
          return None;
        }
        list := list + [next];
      }
    }
    fields := Some(list);
  }

  /** From the quote or the first character of a field to its end */
  method OneField(buf: string, off0: nat, separator: char) returns (ok: bool, next: string, off: nat, comma: bool)
    requires off0 < |buf|
    ensures off0 <= off <= |buf| && (ok && comma ==> off0 < off)
    ensures ok ==> var cut := FirstField(buf[off0..], separator);
                   cut.Cut? && cut.field == next && cut.comma == comma && (comma ==> cut.rest == buf[off..])
    ensures !ok ==> FirstField(buf[off0..], separator).Bad?
  {
    off := off0;
    var quoted := buf[off] == QUOTE;
    if quoted {
      assert buf[off..][1..] == buf[off + 1..];
      off := off + 1;
    }
    ok, next, off, comma := NextField(buf, off, quoted, separator);
  }

  lemma NothingBefore(more: Option<seq<string>>)
    ensures Before([], more) == more
  {
    if more.Some? {
      assert [] + more.value == more.value;
    }
  }

  /** One turn of the outer loop. */
  lemma FieldsStep(b: string, list: seq<string>, separator: char)
    ensures var r := SkipBlanks(b);
            r != [] ==>
              var cut := FirstField(r, separator);
              if cut.Bad? then Before(list, Fields(b, separator)) == None
              else if !cut.comma then Before(list, Fields(b, separator)) == Some(list + [cut.field])
              else Before(list, Fields(b, separator)) == Before(list + [cut.field], Fields(cut.rest, separator))
  {
    var r := SkipBlanks(b);
    if r != [] {
      var cut := FirstField(r, separator);
      if cut.Cut? && cut.comma && Fields(cut.rest, separator).Some? {
        var more := Fields(cut.rest, separator).value;
        assert list + ([cut.field] + more) == (list + [cut.field]) + more;
      }
    }
  }

  /** What the parser sees of a line of the file. */
  function Trimmed(line: string): string {
    var b := SkipBlanks(line);
    if b != [] && b[|b| - 1] == '\n' then b[..|b| - 1] else b
  }

  datatype Outcome = EndOfFile | Invalid | Row(fields: seq<string>)

  /** sbfCsvParser_next, over the lines that fgetln returns: the first line that is not empty is parsed. */
  method Next(lines: seq<string>, line0: nat, separator: char) returns (r: Outcome, line: nat)
    requires line0 <= |lines|
    ensures line0 <= line <= |lines|
    ensures r.EndOfFile? <==> forall i :: line0 <= i < |lines| ==> Trimmed(lines[i]) == []
    ensures !r.EndOfFile? ==>
      && line > line0 && Trimmed(lines[line - 1]) != []
      && (forall i :: line0 <= i < line - 1 ==> Trimmed(lines[i]) == [])
      && var fields := Fields(Trimmed(lines[line - 1]), separator);
         r == if fields.None? then Invalid else Row(fields.value)
  {
    line := line0;
    while line < |lines|
      invariant line0 <= line <= |lines|
      invariant forall i :: line0 <= i < line ==> Trimmed(lines[i]) == []
    {
      var buf := lines[line];
      line := line + 1;
      var off := SkipBlanksFrom(buf, 0);
      assert buf[0..] == buf;
      buf := buf[off..];
      if |buf| > 0 && buf[|buf| - 1] == '\n' {
        buf := buf[..|buf| - 1];
      }
      if |buf| != 0 {
        var fields := ParseLine(buf, separator);
        r := if fields.None? then Invalid else Row(fields.value);
        return;
      }
    }
    r := EndOfFile;
  }

  // ---------------------------------------------------------------------------------------------
  // Round trips
  // ---------------------------------------------------------------------------------------------

  /** A field as it can be written: in quotes, with inner quotes doubled, or as it is. */
  datatype Cell = Quoted(text: string) | Plain(text: string)

  function Doubled(s: string): string {
    if s == [] then [] else (if s[0] == QUOTE then [QUOTE, QUOTE] else [s[0]]) + Doubled(s[1..])
  }

  function Written(c: Cell): string {
    match c
    case Quoted(text) => [QUOTE] + Doubled(text) + [QUOTE]
    case Plain(text) => text
  }

  /** The cells with separators between them. */
  function Line(cells: seq<Cell>, separator: char): string
    requires cells != []
  {
    if |cells| == 1 then Written(cells[0]) else Written(cells[0]) + [separator] + Line(cells[1..], separator)
  }

  function Texts(cells: seq<Cell>): seq<string> {
    if cells == [] then [] else [cells[0].text] + Texts(cells[1..])
  }

  predicate GoodSeparator(separator: char) {
    separator != QUOTE && !Blank(separator)
  }

  /** What may be written as it is. */
  predicate PlainOk(text: string, separator: char) {
    separator !in text && (text != [] ==> !Blank(text[0]) && text[0] != QUOTE && text[|text| - 1] != ' ')
  }

  predicate CellOk(c: Cell, separator: char) {
    c.Plain? ==> PlainOk(c.text, separator)
  }

  /** Inside quotes the parser comes to the closing quote with the text read. */
  lemma {:induction false} ReadDoubled(text: string, rest: string, acc: string, separator: char)
    requires rest == [] || rest[0] != QUOTE
    ensures Field(Doubled(text) + [QUOTE] + rest, acc, true, separator)
         == if rest == [] then Cut(acc + text, [], false) else AfterQuote(SkipBlanks(rest), acc + text, separator)
  {
    var b := Doubled(text) + [QUOTE] + rest;
    if text == [] {
      assert b[1..] == rest && acc + text == acc;
    } else {
      var more := Doubled(text[1..]) + [QUOTE] + rest;
      var acc' := acc + [text[0]];
      ReadDoubled(text[1..], rest, acc', separator);
      assert acc' + text[1..] == acc + text;
      if text[0] == QUOTE {
        assert b == [QUOTE, QUOTE] + more;
        assert b[1..][1..] == more && b[1..][0] == QUOTE;
      } else {
        assert b == [text[0]] + more;
        assert b[1..] == more;
      }
    }
  }

  lemma TrimNothing(s: string)
    requires s == [] || s[|s| - 1] != ' '
    ensures TrimRight(s) == s
  {
  }

  /** Outside quotes it comes to the separator, or to the end. */
  lemma {:induction false} ReadPlain(text: string, rest: string, acc: string, separator: char)
    requires separator !in text && (rest != [] ==> rest[0] == separator)
    ensures Field(text + rest, acc, false, separator)
         == if rest == [] then Cut(acc + text, [], false) else Cut(TrimRight(acc + text), rest[1..], true)
  {
    if text == [] {
      assert text + rest == rest && acc + text == acc;
    } else {
      var acc' := acc + [text[0]];
      assert (text + rest)[1..] == text[1..] + rest && (text + rest)[0] == text[0];
      ReadPlain(text[1..], rest, acc', separator);
      assert acc' + text[1..] == acc + text;
    }
  }

  /** An empty plain field at the end of the line, right behind a quoted one, is not seen. */
  predicate LosesLast(cells: seq<Cell>) {
    |cells| >= 2 && cells[|cells| - 2].Quoted? && cells[|cells| - 1] == Plain([])
  }

  /** What is read of a cell that has the rest of the line behind it. */
  lemma ReadCell(c: Cell, rest: string, separator: char)
    requires GoodSeparator(separator) && CellOk(c, separator) && (rest != [] ==> rest[0] == separator)
    requires c == Plain([]) ==> rest != []
    ensures var b := Written(c) + rest;
            var more := rest != [] && (c.Quoted? ==> rest[1..] != []);
            SkipBlanks(b) == b != [] && FirstField(b, separator) == Cut(c.text, if rest == [] then [] else rest[1..], more)
  {
    match c
    case Quoted(text) => ReadQuotedCell(text, rest, separator);
    case Plain(text) => ReadPlainCell(text, rest, separator);
  }

  lemma ReadQuotedCell(text: string, rest: string, separator: char)
    requires GoodSeparator(separator) && (rest != [] ==> rest[0] == separator)
    ensures var b := Written(Quoted(text)) + rest;
            && SkipBlanks(b) == b != []
            && FirstField(b, separator)
               == Cut(text, if rest == [] then [] else rest[1..], rest != [] && rest[1..] != [])
  {
    var b := Written(Quoted(text)) + rest;
    assert b[0] == QUOTE && b[1..] == Doubled(text) + [QUOTE] + rest;
    ReadDoubled(text, rest, [], separator);
    assert [] + text == text;
  }

  lemma ReadPlainCell(text: string, rest: string, separator: char)
    requires GoodSeparator(separator) && PlainOk(text, separator) && (rest != [] ==> rest[0] == separator)
    requires text == [] ==> rest != []
    ensures var b := text + rest;
            && SkipBlanks(b) == b != []
            && FirstField(b, separator) == Cut(text, if rest == [] then [] else rest[1..], rest != [])
  {
    var b := text + rest;
    assert b[0] == if text == [] then rest[0] else text[0];
    ReadPlain(text, rest, [], separator);
    assert [] + text == text;
    TrimNothing(text);
  }

  /** What is read of the line. */
  function ReadBack(cells: seq<Cell>): seq<string> {
    if LosesLast(cells) then Texts(cells[..|cells| - 1]) else Texts(cells)
  }

  lemma ReadBackFront(cells: seq<Cell>)
    requires |cells| >= 2
    ensures ReadBack(cells) ==
      if cells[1..] == [Plain([])] && cells[0].Quoted? then [cells[0].text] else [cells[0].text] + ReadBack(cells[1..])
  {
    var rest, n := cells[1..], |cells|;
    assert cells[..n - 1][1..] == rest[..n - 2];
    assert Texts(cells[..n - 1]) == [cells[0].text] + Texts(rest[..n - 2]);
    assert n == 2 ==> rest == [cells[1]] && rest[..0] == [];
    assert n > 2 ==> rest != [Plain([])] && LosesLast(rest) == LosesLast(cells);
  }

  lemma ReadBackOne(c: Cell)
    ensures ReadBack([c]) == [c.text]
  {
    assert Texts([c]) == [c.text] + Texts([c][1..]);
  }

  lemma ReadOnly(c: Cell, separator: char)
    requires GoodSeparator(separator) && CellOk(c, separator)
    ensures Fields(Written(c), separator) == Some([c.text])
  {
    if c != Plain([]) {
      ReadCell(c, [], separator);
      assert Written(c) + [] == Written(c);
    }
  }

  lemma ReadNext(c: Cell, rest: string, separator: char)
    requires GoodSeparator(separator) && CellOk(c, separator)
    ensures Fields(Written(c) + [separator] + rest, separator)
         == if c.Quoted? && rest == [] then Some([c.text]) else Before([c.text], Fields(rest, separator))
  {
    ReadCell(c, [separator] + rest, separator);
    assert ([separator] + rest)[1..] == rest;
    assert Written(c) + ([separator] + rest) == Written(c) + [separator] + rest;
  }

  lemma {:induction false} ReadLine(cells: seq<Cell>, separator: char)
    requires cells != [] && GoodSeparator(separator) && forall c :: c in cells ==> CellOk(c, separator)
    ensures Fields(Line(cells, separator), separator) == Some(ReadBack(cells))
    decreases |cells|
  {
    var c := cells[0];
    assert c in cells;
    if |cells| == 1 {
      assert cells == [c];
      ReadBackOne(c);
      ReadOnly(c, separator);
    } else {
      ReadLine(cells[1..], separator);
      ReadBackFront(cells);
      LineEmpty(cells[1..], separator);
      ReadNext(c, Line(cells[1..], separator), separator);
    }
  }

  /**
    The fields of a line are read back as they were written, in quotes or not, exactly when the line does not
    end with an empty field without quotes behind a quoted one.
   */
  lemma RoundTrip(cells: seq<Cell>, separator: char)
    requires cells != [] && GoodSeparator(separator) && forall c :: c in cells ==> CellOk(c, separator)
    ensures Fields(Line(cells, separator), separator) == Some(Texts(cells)) <==> !LosesLast(cells)
  {
    ReadLine(cells, separator);
    TextsLength(cells);
    TextsLength(cells[..|cells| - 1]);
  }

  /** A written line that is not empty comes to the parser as it was written. */
  lemma LineIsTrimmed(cells: seq<Cell>, separator: char)
    requires cells != [] && GoodSeparator(separator) && forall c :: c in cells ==> CellOk(c, separator)
    requires Line(cells, separator) != []
    ensures Trimmed(Line(cells, separator) + "\n") == Line(cells, separator)
  {
    var c, b := cells[0], Line(cells, separator);
    assert c in cells;
    assert !Blank(b[0]);
    assert (b + "\n")[0] == b[0];
    assert SkipBlanks(b + "\n") == b + "\n";
  }

  /** With every field in quotes it is always read back (rule 7 of section 2 of RFC 4180). */
  lemma QuotedRoundTrip(texts: seq<string>, separator: char)
    requires texts != [] && GoodSeparator(separator)
    ensures Fields(Line(AllQuoted(texts), separator), separator) == Some(texts)
  {
    AllQuotedTexts(texts);
    QuotedLine(AllQuoted(texts), separator);
  }

  lemma QuotedLine(cells: seq<Cell>, separator: char)
    requires cells != [] && GoodSeparator(separator) && forall c :: c in cells ==> c.Quoted?
    ensures Fields(Line(cells, separator), separator) == Some(Texts(cells))
  {
    assert cells[|cells| - 1] in cells;
    RoundTrip(cells, separator);
  }

  function AllQuoted(texts: seq<string>): seq<Cell> {
    if texts == [] then [] else [Quoted(texts[0])] + AllQuoted(texts[1..])
  }

  lemma {:induction false} AllQuotedTexts(texts: seq<string>)
    ensures Texts(AllQuoted(texts)) == texts
    ensures |AllQuoted(texts)| == |texts| && forall c :: c in AllQuoted(texts) ==> c.Quoted?
  {
    if texts != [] {
      AllQuotedTexts(texts[1..]);
      assert AllQuoted(texts)[1..] == AllQuoted(texts[1..]);
    }
  }

  lemma {:induction false} TextsLength(cells: seq<Cell>)
    ensures |Texts(cells)| == |cells|
  {
    if cells != [] {
      TextsLength(cells[1..]);
    }
  }

  lemma LineEmpty(cells: seq<Cell>, separator: char)
    requires cells != []
    ensures Line(cells, separator) == [] <==> cells == [Plain([])]
  {
    if |cells| == 1 {
      assert cells == [cells[0]];
    }
  }

  // ---------------------------------------------------------------------------------------------
  // Any line
  // ---------------------------------------------------------------------------------------------

  /** Exactly the blanks in front go. */
  lemma {:induction false} SkipBlanksExactly(b: string)
    ensures var r := SkipBlanks(b);
            && |r| <= |b| && b[|b| - |r|..] == r && (r != [] ==> !Blank(r[0]))
            && forall i :: 0 <= i < |b| - |r| ==> Blank(b[i])
  {
    if b != [] && Blank(b[0]) {
      SkipBlanksExactly(b[1..]);
      var n := |b| - |SkipBlanks(b)|;
      assert b[1..][n - 1..] == b[n..];
      forall i | 0 <= i < n ensures Blank(b[i]) {
        assert i > 0 ==> b[i] == b[1..][i - 1];
      }
    }
  }

  /** Exactly the spaces at the end go; a tab stays. */
  lemma {:induction false} TrimRightExactly(s: string)
    ensures var r := TrimRight(s);
            r <= s && (forall i :: |r| <= i < |s| ==> s[i] == ' ') && (r != [] ==> r[|r| - 1] != ' ')
  {
    if s != [] && s[|s| - 1] == ' ' {
      TrimRightExactly(s[..|s| - 1]);
    }
  }

  /** A field without quotes goes up to the first separator, less the spaces in front of it, or to the end of the line. */
  lemma PlainField(text: string, rest: string, separator: char)
    requires separator !in text && (text != [] ==> text[0] != QUOTE) && (text == [] ==> separator != QUOTE)
    ensures FirstField(text + [separator] + rest, separator) == Cut(TrimRight(text), rest, true)
    ensures text != [] ==> FirstField(text, separator) == Cut(text, [], false)
  {
    assert [] + text == text && text + [] == text && text + ([separator] + rest) == text + [separator] + rest;
    assert ([separator] + rest)[1..] == rest;
    ReadPlain(text, [separator] + rest, [], separator);
    ReadPlain(text, [], [], separator);
  }

  /** A field in quotes goes up to its closing quote, or to the end of the line if there is none. */
  lemma QuotedField(text: string, separator: char)
    ensures FirstField([QUOTE] + Doubled(text), separator) == Cut(text, [], false)
    ensures FirstField([QUOTE] + Doubled(text) + [QUOTE], separator) == Cut(text, [], false)
  {
    assert ([QUOTE] + Doubled(text))[1..] == Doubled(text);
    assert ([QUOTE] + Doubled(text) + [QUOTE])[1..] == Doubled(text) + [QUOTE] + [];
    ReadUnclosed(text, [], separator);
    ReadDoubled(text, [], [], separator);
    assert [] + text == text;
  }

  lemma {:induction false} ReadUnclosed(text: string, acc: string, separator: char)
    ensures Field(Doubled(text), acc, true, separator) == Cut(acc + text, [], false)
  {
    if text == [] {
      assert acc + text == acc;
    } else {
      var more := Doubled(text[1..]);
      ReadUnclosed(text[1..], acc + [text[0]], separator);
      assert acc + [text[0]] + text[1..] == acc + text;
      if text[0] == QUOTE {
        assert Doubled(text)[1..][1..] == more;
      } else {
        assert Doubled(text)[1..] == more;
      }
    }
  }

  /** Of a line the parser sees all but the blanks in front and the newline at its end. */
  lemma TrimmedExactly(line: string)
    ensures var b := Trimmed(line);
            exists n :: 0 <= n <= |line| && (forall i :: 0 <= i < n ==> Blank(line[i]))
              && (line[n..] == b + "\n" || (line[n..] == b && (b != [] ==> b[|b| - 1] != '\n')))
              && (b != [] ==> !Blank(b[0]))
  {
    SkipBlanksExactly(line);
    var n, b := |line| - |SkipBlanks(line)|, Trimmed(line);
    assert line[n..] == b + "\n" || line[n..] == b;
  }

  /** The field goes on behind its closing quote with something other than blanks and a separator. */
  predicate Spoilt(b: string, text: string, behind: string, separator: char) {
    && b == [QUOTE] + Doubled(text) + [QUOTE] + behind
    && behind != [] && behind[0] != QUOTE
    && SkipBlanks(behind) != [] && SkipBlanks(behind)[0] != separator
  }

  lemma {:induction false} BadIsSpoilt(b: string, acc: string, separator: char) returns (text: string, behind: string)
    requires Field(b, acc, true, separator).Bad?
    ensures Spoilt([QUOTE] + b, text, behind, separator)
    decreases |b|
  {
    if b[0] == QUOTE && b[1] != QUOTE {
      text, behind := [], b[1..];
      assert Doubled([]) == [] && [QUOTE] + b == [QUOTE] + [] + [QUOTE] + behind;
    } else {
      var n := if b[0] == QUOTE then 2 else 1;
      assert b[1..][1..] == b[2..];
      text, behind := BadIsSpoilt(b[n..], acc + [b[0]], separator);
      SpoiltBefore(b, n, text, behind, separator);
      text := [b[0]] + text;
    }
  }

  lemma SpoiltBefore(b: string, n: nat, text: string, behind: string, separator: char)
    requires n <= |b| && Spoilt([QUOTE] + b[n..], text, behind, separator)
    requires b != [] && if b[0] == QUOTE then b[..n] == [QUOTE, QUOTE] else b[..n] == [b[0]]
    ensures Spoilt([QUOTE] + b, [b[0]] + text, behind, separator)
  {
    var more := [b[0]] + text;
    assert b[n..] == ([QUOTE] + b[n..])[1..] == Doubled(text) + [QUOTE] + behind;
    assert more[1..] == text && Doubled(more) == b[..n] + Doubled(text);
    assert b == b[..n] + b[n..] == Doubled(more) + [QUOTE] + behind;
  }

  lemma {:induction false} PlainIsNotBad(b: string, acc: string, separator: char)
    ensures Field(b, acc, false, separator).Cut?
  {
    if b != [] && b[0] != separator {
      PlainIsNotBad(b[1..], acc + [b[0]], separator);
    }
  }

  /** Just such a field is refused, and no other. */
  lemma BadExactly(b: string, separator: char)
    requires b != []
    ensures FirstField(b, separator).Bad? <==> exists text, behind :: Spoilt(b, text, behind, separator)
  {
    if b[0] != QUOTE {
      PlainIsNotBad(b, [], separator);
    } else {
      assert b == [QUOTE] + b[1..];
      if FirstField(b, separator).Bad? {
        var text, behind := BadIsSpoilt(b[1..], [], separator);
      }
      forall text, behind | Spoilt(b, text, behind, separator) ensures FirstField(b, separator).Bad? {
        ReadDoubled(text, behind, [], separator);
        assert b[1..] == Doubled(text) + [QUOTE] + behind;
      }
    }
  }

  /** A field of the line starts here: the line itself, or what is behind a separator that ends a field. */
  predicate StartsField(b: string, at: string, separator: char)
    decreases |b|
  {
    var r := SkipBlanks(b);
    r != [] &&
    (r == at || var cut := FirstField(r, separator); cut.Cut? && cut.comma && StartsField(cut.rest, at, separator))
  }

  ghost predicate SpoiltAt(b: string, at: string, separator: char) {
    StartsField(b, at, separator) && exists text, behind :: Spoilt(at, text, behind, separator)
  }

  /** A line is refused exactly if one of its fields goes on behind its closing quote. */
  lemma {:induction false} RefusedExactly(b: string, separator: char)
    ensures Fields(b, separator) == None <==> exists at :: SpoiltAt(b, at, separator)
    decreases |b|
  {
    var r := SkipBlanks(b);
    if r != [] {
      BadExactly(r, separator);
      var cut := FirstField(r, separator);
      if cut.Bad? {
        assert SpoiltAt(b, r, separator);
      } else if cut.comma {
        RefusedExactly(cut.rest, separator);
        forall at ensures SpoiltAt(cut.rest, at, separator) <==> SpoiltAt(b, at, separator) {
        }
      }
    }
  }
}
