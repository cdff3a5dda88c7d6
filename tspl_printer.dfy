/**
 * The TSPL command builder and sequencer of the Printer class
 * (src/TsplPrinter.php): session fields set by setters, one text line per
 * directive rendered from them, and the seven-line bitmap job written to the
 * connector as one CRLF-joined string.
 *
 * Every field value is a string the caller has already rendered; an unset
 * field is None, which PHP concatenates as the empty string.
 */
module TsplPrinter {
  import opened Wrappers
  import opened Strings

  const LineBreak: string := "\r\n"
  const Separator: string := ","
  const Space: string := " "

  const SizeKeyword: string := "SIZE"
  const GapKeyword: string := "GAP"
  const ReferenceKeyword: string := "REFERENCE"
  const BitmapKeyword: string := "BITMAP"
  const PrintKeyword: string := "PRINT"
  const Cls: string := "CLS"
  const Eop: string := "EOP"

  /** The protocol default unit (inches, spelled as nothing). */
  const DefaultUnit: string := ""

  /** What PHP's string concatenation makes of a field: null becomes "". */
  function Text(field: Option<string>): string
  {
    if field.Some? then field.value else ""
  }

  /** PHP truthiness of a null-or-string value (the string "0" aside). */
  predicate Truthy(v: Option<string>)
  {
    v.Some? && v.value != ""
  }

  /** The wire shape of a directive: keyword, one space, comma-separated fields. */
  function Line(keyword: string, fields: seq<string>): string
  {
    keyword + Space + Join(fields, Separator)
  }

  /** Reads a directive back: the text before the first space, and the comma-separated pieces after it. */
  function ParseLine(line: string): Option<(string, seq<string>)>
  {
    match FindFrom(line, Space, 0)
    case None => None
    case Some(k) => Some((line[..k], Split(line[k + 1..], ',')))
  }

  /**
   * Parsing a rendered directive gives back its keyword and its fields, when
   * no field but the last holds a comma; the last field comes back as its
   * comma-separated pieces (itself, when it holds none).
   */
  lemma ParseLineOfLine(keyword: string, fields: seq<string>)
    requires ' ' !in keyword && |fields| >= 1
    requires forall i :: 0 <= i < |fields| - 1 ==> ',' !in fields[i]
    ensures ParseLine(Line(keyword, fields))
         == Some((keyword, fields[..|fields| - 1] + Split(fields[|fields| - 1], ',')))
    ensures ',' !in fields[|fields| - 1] ==> ParseLine(Line(keyword, fields)) == Some((keyword, fields))
  {
    var line := Line(keyword, fields);
    var k := |keyword|;
    assert line[k..k + 1] == Space;
    forall j: nat | j < k ensures !MatchAt(line, Space, j) {
      assert line[j..j + 1] == [keyword[j]];
    }
    FindFromFirst(line, Space, 0, k);
    assert line[..k] == keyword;
    assert line[k + 1..] == Join(fields, [',']);
    SplitJoin(fields, ',');
    if ',' !in fields[|fields| - 1] {
      SplitJoinExact(fields, ',');
    }
  }

  /** Every line ParseLine accepts is the rendering of what it returns. */
  lemma LineOfParseLine(line: string)
    requires ParseLine(line).Some?
    ensures Line(ParseLine(line).value.0, ParseLine(line).value.1) == line
  {
    var k := FindFrom(line, Space, 0).value;
    JoinSplit(line[k + 1..], ',');
    assert line[k..k + 1] == Space;
    assert line == line[..k] + line[k..k + 1] + line[k + 1..];
  }

  /**
   * getUnit as PHP 7 evaluates line 164: the unparenthesised ternaries group
   * to the left, so the per-call unit, or else the session default, is only
   * tested for truthiness, and the result is the session default or "".
   */
  function GetUnitAsWritten(unit: Option<string>, defaultUnit: Option<string>): (r: string)
    ensures unit.Some? && unit.value != "" ==> r == Text(defaultUnit)
    ensures unit == Some("") ==> r == DefaultUnit
    ensures unit.None? ==> r == (if Truthy(defaultUnit) then defaultUnit.value else DefaultUnit)
  {
    var chosen := if unit.Some? then unit else defaultUnit;
    if Truthy(chosen) then Text(defaultUnit) else DefaultUnit
  }

  /** Under the PHP 7 grouping an explicit unit is dropped: "mm" with no session default renders as "". */
  lemma ExplicitUnitLostAsWritten()
    ensures GetUnitAsWritten(Some("mm"), None) == ""
    ensures GetUnitAsWritten(Some("mm"), Some("dot")) == "dot"
  {
  }

  /** The join of the six BITMAP fields, unfolded. */
  lemma JoinFields6(a: string, b: string, c: string, d: string, e: string, f: string)
    ensures Join([a, b, c, d, e, f], Separator)
         == a + Separator + b + Separator + c + Separator + d + Separator + e + Separator + f
  {
    JoinCons(e, [f], Separator);
    JoinCons(d, [e, f], Separator);
    JoinCons(c, [d, e, f], Separator);
    JoinCons(b, [c, d, e, f], Separator);
    JoinCons(a, [b, c, d, e, f], Separator);
  }

  /** The three PrintBitmapImage inputs that come from the image object, already rendered. */
  datatype BitmapImage = BitmapImage(widthBytes: string, height: string, raster: string)

  class Printer {
    var defaultUnit: Option<string>

    var sizeWidth: Option<string>
    var sizeHeight: Option<string>
    var sizeUnit: Option<string>

    var gapDistance: Option<string>
    var gapOffset: Option<string>
    var gapUnit: Option<string>

    var referenceX: Option<string>
    var referenceY: Option<string>

    /** Everything handed to the connector's write, one entry per call. */
    var written: seq<string>

    /** A new session: every field unset, nothing written yet. */
    constructor ()
      ensures defaultUnit == None
      ensures sizeWidth == None && sizeHeight == None && sizeUnit == None
      ensures gapDistance == None && gapOffset == None && gapUnit == None
      ensures referenceX == None && referenceY == None
      ensures written == []
    {
      defaultUnit := None;
      sizeWidth, sizeHeight, sizeUnit := None, None, None;
      gapDistance, gapOffset, gapUnit := None, None, None;
      referenceX, referenceY := None, None;
      written := [];
    }

    /**
     * The unit suffix for a measurement, right-associative reading: the
     * per-call unit when given, else the session default when it is
     * non-empty, else the protocol default.
     */
    function GetUnit(unit: Option<string>): (r: string)
      reads this
      ensures unit.Some? ==> r == unit.value
      ensures unit.None? && Truthy(defaultUnit) ==> r == defaultUnit.value
      ensures unit.None? && !Truthy(defaultUnit) ==> r == DefaultUnit
    {
      if unit.Some? then unit.value
      else if Truthy(defaultUnit) then defaultUnit.value
      else DefaultUnit
    }

    method SetDefaultUnit(unit: Option<string>)
      modifies this`defaultUnit
      ensures defaultUnit == unit
    {
      defaultUnit := unit;
    }

    /** Overwrites the whole SIZE group; an omitted height or unit becomes unset. */
    method SetSize(width: string, height: Option<string>, unit: Option<string>)
      modifies this`sizeWidth, this`sizeHeight, this`sizeUnit
      ensures sizeWidth == Some(width) && sizeHeight == height && sizeUnit == unit
      ensures height.None? ==> SizeCommand() == Line(SizeKeyword, [width + GetUnit(unit)])
      ensures GapCommand() == old(GapCommand()) && ReferenceCommand() == old(ReferenceCommand())
    {
      sizeWidth := Some(width);
      sizeHeight := height;
      sizeUnit := unit;
    }

    /** Overwrites the whole GAP group and returns the printer itself. */
    method SetGap(distance: string, offset: string, unit: Option<string>) returns (self: Printer)
      modifies this`gapDistance, this`gapOffset, this`gapUnit
      ensures gapDistance == Some(distance) && gapOffset == Some(offset) && gapUnit == unit
      ensures SizeCommand() == old(SizeCommand()) && ReferenceCommand() == old(ReferenceCommand())
      ensures self == this
    {
      gapDistance := Some(distance);
      gapOffset := Some(offset);
      gapUnit := unit;
      self := this;
    }

    /** Overwrites the REFERENCE group and returns the printer itself. */
    method SetReference(x: string, y: string) returns (self: Printer)
      modifies this`referenceX, this`referenceY
      ensures referenceX == Some(x) && referenceY == Some(y)
      ensures SizeCommand() == old(SizeCommand()) && GapCommand() == old(GapCommand())
      ensures self == this
    {
      referenceX := Some(x);
      referenceY := Some(y);
      self := this;
    }

    /** SIZE width+unit, with ",height+unit" only when a height is set; both carry the resolved size unit. */
    function SizeCommand(): (r: string)
      reads this
      ensures r == Line(SizeKeyword,
                        [Text(sizeWidth) + GetUnit(sizeUnit)]
                        + (if sizeHeight.Some? then [sizeHeight.value + GetUnit(sizeUnit)] else []))
    {
      var unit := GetUnit(sizeUnit);
      JoinCons(Text(sizeWidth) + unit, [Text(sizeHeight) + unit], Separator);
      var str := SizeKeyword + Space + Text(sizeWidth) + unit;
      if sizeHeight.Some? then str + Separator + sizeHeight.value + unit else str
    }

    /** GAP distance+unit,offset+unit, both with the resolved gap unit. */
    function GapCommand(): (r: string)
      reads this
      ensures r == Line(GapKeyword, [Text(gapDistance) + GetUnit(gapUnit), Text(gapOffset) + GetUnit(gapUnit)])
    {
      var unit := GetUnit(gapUnit);
      JoinCons(Text(gapDistance) + unit, [Text(gapOffset) + unit], Separator);
      GapKeyword + Space + Text(gapDistance) + unit + Separator + Text(gapOffset) + unit
    }

    /** REFERENCE x,y. */
    function ReferenceCommand(): (r: string)
      reads this
      ensures r == Line(ReferenceKeyword, [Text(referenceX), Text(referenceY)])
    {
      JoinCons(Text(referenceX), [Text(referenceY)], Separator);
      ReferenceKeyword + Space + Text(referenceX) + Separator + Text(referenceY)
    }

    /** BITMAP x,y,widthBytes,heightDots,mode,data. */
    static function BitmapCommand(x: string, y: string, widthBytes: string, heightDots: string,
                                  mode: string, data: string): (r: string)
      ensures r == Line(BitmapKeyword, [x, y, widthBytes, heightDots, mode, data])
    {
      JoinFields6(x, y, widthBytes, heightDots, mode, data);
      BitmapKeyword + Space + x + Separator + y + Separator + widthBytes
        + Separator + heightDots + Separator + mode + Separator + data
    }

    /** PRINT setCount, with ",copy" only when a copy count is given. */
    static function PrintCommand(setCount: string, copy: Option<string>): (r: string)
      ensures r == Line(PrintKeyword, [setCount] + (if copy.Some? then [copy.value] else []))
    {
      JoinCons(setCount, [Text(copy)], Separator);
      var str := PrintKeyword + Space + setCount;
      if copy.Some? then str + Separator + copy.value else str
    }

    /** The seven directives of a bitmap job, in the order the firmware needs them. */
    function BitmapJob(image: BitmapImage, x: string, y: string, mode: string): seq<string>
      reads this
    {
      [SizeCommand(), GapCommand(), ReferenceCommand(), Cls,
       BitmapCommand(x, y, image.widthBytes, image.height, mode, image.raster),
       PrintCommand("1", None), Eop]
    }

    /** One write to the connector: the lines joined by CRLF. */
    method SendCommands(commands: seq<string>)
      modifies this`written
      ensures written == old(written) + [Join(commands, LineBreak)]
    {
      var commandString := Join(commands, LineBreak);
      written := written + [commandString];
    }

    /** Builds the bitmap job line by line and sends it in one write (the source defaults x, y and mode to 0). */
    method PrintBitmapImage(image: BitmapImage, x: string, y: string, mode: string)
      modifies this`written
      ensures written == old(written) + [Join(BitmapJob(image, x, y, mode), LineBreak)]
    {
      var commands: seq<string> := [];
      commands := commands + [SizeCommand()];
      commands := commands + [GapCommand()];
      commands := commands + [ReferenceCommand()];
      commands := commands + [Cls];
      commands := commands + [BitmapCommand(x, y, image.widthBytes, image.height, mode, image.raster)];
      commands := commands + [PrintCommand("1", None)];
      commands := commands + [Eop];
      assert commands == BitmapJob(image, x, y, mode);
      SendCommands(commands);
    }
  }

  /** Without a per-call unit both readings of line 164 resolve the same unit. */
  lemma ReadingsAgreeWithoutExplicitUnit(p: Printer)
    ensures GetUnitAsWritten(None, p.defaultUnit) == p.GetUnit(None)
  {
  }

  /**
   * The SIZE line reads back as keyword SIZE with one field, or two exactly
   * when a height is set; every field ends in the same resolved size unit.
   */
  lemma SizeLineFields(p: Printer)
    requires ',' !in Text(p.sizeWidth) + p.GetUnit(p.sizeUnit)
    requires p.sizeHeight.Some? ==> ',' !in p.sizeHeight.value + p.GetUnit(p.sizeUnit)
    ensures ParseLine(p.SizeCommand()).Some?
    ensures var (keyword, fields) := ParseLine(p.SizeCommand()).value;
      && keyword == SizeKeyword
      && (|fields| == 2 <==> p.sizeHeight.Some?)
      && (|fields| == 1 <==> p.sizeHeight.None?)
      && fields[0] == Text(p.sizeWidth) + p.GetUnit(p.sizeUnit)
      && (p.sizeHeight.Some? ==> fields[1] == p.sizeHeight.value + p.GetUnit(p.sizeUnit))
  {
    var u := p.GetUnit(p.sizeUnit);
    var fields := [Text(p.sizeWidth) + u] + (if p.sizeHeight.Some? then [p.sizeHeight.value + u] else []);
    ParseLineOfLine(SizeKeyword, fields);
  }

  /** The GAP line reads back as exactly two fields, distance then offset, with the same resolved gap unit. */
  lemma GapLineFields(p: Printer)
    requires ',' !in Text(p.gapDistance) + p.GetUnit(p.gapUnit)
    requires ',' !in Text(p.gapOffset) + p.GetUnit(p.gapUnit)
    ensures ParseLine(p.GapCommand())
         == Some((GapKeyword, [Text(p.gapDistance) + p.GetUnit(p.gapUnit), Text(p.gapOffset) + p.GetUnit(p.gapUnit)]))
  {
    ParseLineOfLine(GapKeyword, [Text(p.gapDistance) + p.GetUnit(p.gapUnit), Text(p.gapOffset) + p.GetUnit(p.gapUnit)]);
  }

  /** The REFERENCE line reads back as exactly the two fields x, y. */
  lemma ReferenceLineFields(p: Printer)
    requires ',' !in Text(p.referenceX) && ',' !in Text(p.referenceY)
    ensures ParseLine(p.ReferenceCommand()) == Some((ReferenceKeyword, [Text(p.referenceX), Text(p.referenceY)]))
  {
    ParseLineOfLine(ReferenceKeyword, [Text(p.referenceX), Text(p.referenceY)]);
  }

  /**
   * The BITMAP line reads back as x, y, widthBytes, heightDots and mode in
   * that order, and everything after the fifth comma is the data, even when
   * the raster bytes themselves hold commas.
   */
  lemma BitmapLineFields(x: string, y: string, widthBytes: string, heightDots: string, mode: string, data: string)
    requires ',' !in x && ',' !in y && ',' !in widthBytes && ',' !in heightDots && ',' !in mode
    ensures ParseLine(Printer.BitmapCommand(x, y, widthBytes, heightDots, mode, data)).Some?
    ensures var (keyword, fields) := ParseLine(Printer.BitmapCommand(x, y, widthBytes, heightDots, mode, data)).value;
      && keyword == BitmapKeyword
      && |fields| >= 6
      && fields[..5] == [x, y, widthBytes, heightDots, mode]
      && Join(fields[5..], Separator) == data
      && (',' !in data ==> fields == [x, y, widthBytes, heightDots, mode, data])
  {
    var fields := [x, y, widthBytes, heightDots, mode, data];
    ParseLineOfLine(BitmapKeyword, fields);
    var parsed := fields[..5] + Split(data, ',');
    assert parsed[..5] == fields[..5];
    assert parsed[5..] == Split(data, ',');
    JoinSplit(data, ',');
  }

  /** The PRINT line reads back as setCount, plus copy as a second field exactly when copy is given. */
  lemma PrintLineFields(setCount: string, copy: Option<string>)
    requires ',' !in setCount && (copy.Some? ==> ',' !in copy.value)
    ensures ParseLine(Printer.PrintCommand(setCount, copy)).Some?
    ensures var (keyword, fields) := ParseLine(Printer.PrintCommand(setCount, copy)).value;
      && keyword == PrintKeyword
      && fields[0] == setCount
      && (|fields| == 2 <==> copy.Some?)
      && (|fields| == 1 <==> copy.None?)
      && (copy.Some? ==> fields[1] == copy.value)
  {
    ParseLineOfLine(PrintKeyword, [setCount] + (if copy.Some? then [copy.value] else []));
  }

  /**
   * What one write carries: the lines with a CRLF between consecutive ones
   * and none after the last, so that one more CRLF gives every line its own
   * terminator.
   */
  lemma SentCommandsLayout(commands: seq<string>)
    requires |commands| >= 1
    ensures Join(commands, LineBreak) + LineBreak == Terminated(commands, LineBreak)
  {
    JoinThenSeparator(commands, LineBreak);
  }

  /** A line break holds one CR. */
  lemma CrInLineBreak()
    ensures Count(LineBreak, '\r') == 1
  {
    assert LineBreak[0] == '\r';
    assert LineBreak[1..] == "\n";
    assert Count("\n", '\r') == 0;
  }

  /** When no line holds a CR, a write of n lines holds exactly n - 1 of them: one per separator. */
  lemma SentCommandsSeparators(commands: seq<string>)
    requires |commands| >= 1
    requires forall i :: 0 <= i < |commands| ==> '\r' !in commands[i]
    ensures Count(Join(commands, LineBreak), '\r') == |commands| - 1
  {
    CrInLineBreak();
    JoinSeparatorCount(commands, LineBreak, '\r');
  }

  /**
   * The bitmap job as written: it starts with the SIZE line and a CRLF, and
   * ends with a CRLF and EOP, with no terminator after EOP; the BITMAP line
   * carries the image's widthBytes and height, and the PRINT line is "PRINT 1".
   */
  lemma BitmapJobWire(p: Printer, image: BitmapImage, x: string, y: string, mode: string)
    ensures var lines := p.BitmapJob(image, x, y, mode);
      && |lines| == 7
      && lines[3] == Cls && lines[5] == "PRINT 1" && lines[6] == Eop
      && lines[4] == Line(BitmapKeyword, [x, y, image.widthBytes, image.height, mode, image.raster])
    ensures var s := Join(p.BitmapJob(image, x, y, mode), LineBreak);
      && s[..|p.SizeCommand()| + 2] == p.SizeCommand() + LineBreak
      && |s| >= 5 && s[|s| - 5..] == LineBreak + Eop
  {
    var lines := p.BitmapJob(image, x, y, mode);
    JoinCons(lines[0], lines[1..], LineBreak);
    assert [lines[0]] + lines[1..] == lines;
    JoinSnoc(lines, LineBreak);
  }
}
