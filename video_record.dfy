/** The record kept for one observed video (class VideoInfo of TikTokBot/bot.py):
    its validity test, the expansion of shorthand counts such as "10.5K", and the
    CSV header and row it is written as. */
module VideoRecord {
  import opened Wrappers
  import opened Text

  // ---------------------------------------------------------------------------
  // Python values held by the record's fields
  // ---------------------------------------------------------------------------

  /** The Python values the fields of a VideoInfo take. A float is carried as the text
      Python prints for it, because the model never computes with it. */
  datatype Value =
    | NoneValue
    | Str(s: string)
    | Int(i: int)
    | Float(text: string)
    | StrList(items: seq<string>)

  /** VideoInfo: the five constructor arguments, then likes, comments and sound,
      which the constructor sets to None and the collector may set afterwards. */
  datatype VideoInfo = VideoInfo(
    vid: Value, creator: Value, desc: Value, tags: Value, duration: Value,
    likes: Value, comments: Value, sound: Value)

  /** VideoInfo(vid, creator, desc, tags, duration). */
  function NewVideoInfo(vid: Value, creator: Value, desc: Value, tags: Value, duration: Value): VideoInfo
  {
    VideoInfo(vid, creator, desc, tags, duration, NoneValue, NoneValue, NoneValue)
  }

  /** VideoInfo.valid: the id is present, creator and desc are strings, tags is a list
      and duration is a float. Nothing is required of the float's value. */
  predicate Valid(v: VideoInfo)
  {
    v.vid != NoneValue && v.creator.Str? && v.desc.Str? && v.tags.StrList? && v.duration.Float?
  }

  /** The fields set after construction never decide validity. */
  lemma ValidIgnoresLateFields(v: VideoInfo, likes: Value, comments: Value, sound: Value)
    ensures Valid(v.(likes := likes, comments := comments, sound := sound)) == Valid(v)
  {
  }

  /** There is no positivity check: any float duration, 0.0 included, is as good as any other. */
  lemma ValidIgnoresDurationValue(v: VideoInfo, t: string, t': string)
    ensures Valid(v.(duration := Float(t))) == Valid(v.(duration := Float(t')))
  {
  }

  /** A duration that arrives as a Python int (a whole number of seconds) makes the
      record invalid, as does a missing one. */
  lemma ValidNeedsFloatDuration(v: VideoInfo, seconds: int)
    ensures !Valid(v.(duration := Int(seconds)))
    ensures !Valid(v.(duration := NoneValue))
  {
  }

  // ---------------------------------------------------------------------------
  // num_str_to_int
  // ---------------------------------------------------------------------------

  predicate IsSuffix(c: char) { c == 'K' || c == 'M' || c == 'B' }

  function Multiplier(c: char): nat
    requires IsSuffix(c)
  {
    if c == 'K' then 1000 else if c == 'M' then 1_000_000 else 1_000_000_000
  }

  /** Python's round() of a number to an int: the nearest integer, ties to the even one. */
  function RoundHalfEven(x: real): (r: int)
    ensures x - 0.5 <= r as real <= x + 0.5
    ensures (r as real - x == 0.5 || x - r as real == 0.5) ==> r % 2 == 0
  {
    var f := x.Floor;
    var d := x - f as real;
    if d < 0.5 then f
    else if d > 0.5 then f + 1
    else if f % 2 == 0 then f
    else f + 1
  }

  /** VideoInfo.num_str_to_int: a non-string is returned as it is; a string ending in
      K, M or B is its mantissa times 10^3, 10^6 or 10^9, rounded; any other string goes
      through int(). The empty string fails when its last character is read. */
  function NumStrToInt(n: Value): (r: Result<Value>)
    ensures !n.Str? ==> r == Ok(n)
    ensures n.Str? && r.Ok? ==> r.value.Int?
    ensures n == Str("") ==> r == Err(IndexError)
  {
    if !n.Str? then Ok(n)
    else if n.s == [] then Err(IndexError)
    else
      var last := n.s[|n.s| - 1];
      if IsSuffix(last) then
        match ParseDecimal(n.s[..|n.s| - 1])
        case Ok(mantissa) => Ok(Int(RoundHalfEven(mantissa * Multiplier(last) as real)))
        case Err(e) => Err(e)
      else
        match ParseInt(n.s)
        case Ok(i) => Ok(Int(i))
        case Err(e) => Err(e)
  }

  /** A count written out in full comes back as the same integer. */
  lemma NumStrToIntOfFullNumber(i: int)
    ensures NumStrToInt(Str(IntToString(i))) == Ok(Int(i))
  {
    var s := IntToString(i);
    assert !IsSuffix(s[|s| - 1]) by {
      var digits := NatToString(if i < 0 then -i else i);
      assert s[|s| - 1] == digits[|digits| - 1];
      assert IsDigit(digits[|digits| - 1]);
    }
    ParseIntOfIntToString(i);
  }

  /** A whole mantissa with a suffix is multiplied out exactly. */
  lemma NumStrToIntOfSuffixed(m: nat, suffix: char)
    requires IsSuffix(suffix)
    ensures NumStrToInt(Str(NatToString(m) + [suffix])) == Ok(Int(m * Multiplier(suffix)))
  {
    var s := NatToString(m) + [suffix];
    assert s[..|s| - 1] == NatToString(m);
    ParseDecimalOfNatToString(m);
    var k := m * Multiplier(suffix);
    assert m as real * Multiplier(suffix) as real == k as real;
    RoundHalfEvenOfInteger(k);
  }

  /** A mantissa with a fractional part, any digits on either side of the point: the
      count is the exact decimal value times 10^3, 10^6 or 10^9, rounded as round()
      does. */
  lemma NumStrToIntOfDecimal(whole: string, frac: string, suffix: char)
    requires AllDigits(whole) && AllDigits(frac) && |frac| >= 1 && IsSuffix(suffix)
    ensures NumStrToInt(Str(whole + ['.'] + frac + [suffix])) == Ok(Int(RoundHalfEven(DecimalValue(whole, frac) * Multiplier(suffix) as real)))
  {
    ParseDecimalOfPoint(whole, frac);
    NumStrToIntOfMantissa(whole + ['.'] + frac, suffix);
  }

  /** Text ending in K, M or B whose rest float() reads is that value, multiplied out
      and rounded. */
  lemma NumStrToIntOfMantissa(text: string, suffix: char)
    requires IsSuffix(suffix) && ParseDecimal(text).Ok?
    ensures NumStrToInt(Str(text + [suffix])) == Ok(Int(RoundHalfEven(ParseDecimal(text).value * Multiplier(suffix) as real)))
  {
    var s := text + [suffix];
    assert s[..|s| - 1] == text && s[|s| - 1] == suffix;
  }

  lemma RoundHalfEvenOfInteger(k: int)
    ensures RoundHalfEven(k as real) == k
  {
  }

  /** The example of the doc comment: "10.5K" is 10500. */
  lemma NumStrToIntDocExample()
    ensures NumStrToInt(Str("10.5K")) == Ok(Int(10500))
  {
    assert "10.5K"[..4] == "10.5";
    assert "10.5" == "10" + ['.'] + "5";
    SplitAtSeparator("10", '.', "5");
    SplitWithoutSeparator("10", '.');
    SplitWithoutSeparator("5", '.');
    assert DigitsValue("10") == 10 by {
      assert "10"[..1] == "1";
    }
  }

  lemma NumStrToIntShortExamples()
    ensures NumStrToInt(Str("2M")) == Ok(Int(2000000))
    ensures NumStrToInt(Str("150")) == Ok(Int(150))
  {
    assert NatToString(2) + ['M'] == "2M";
    NumStrToIntOfSuffixed(2, 'M');
    assert NatToString(15) == "15";
    assert IntToString(150) == "150";
    NumStrToIntOfFullNumber(150);
  }

  /** A bare suffix and a lower-case suffix are both rejected by float() and int(). */
  lemma NumStrToIntMalformedExamples()
    ensures NumStrToInt(Str("K")) == Err(ValueError)
    ensures NumStrToInt(Str("1.2k")) == Err(ValueError)
  {
    assert "K"[..0] == "";
    assert "1.2k"[3] == 'k';
    assert !AllDigits("1.2k") by {
      assert !IsDigit("1.2k"[1]);
    }
  }

  // ---------------------------------------------------------------------------
  // str() and repr() of the field values
  // ---------------------------------------------------------------------------

  function HexDigit(d: nat): char
    requires d < 16
  {
    if d < 10 then DigitChar(d) else (d - 10 + 'a' as int) as char
  }

  /** How repr() writes one character of a string delimited by `quote`. Non-ASCII
      characters are all taken to be printable. */
  function ReprChar(c: char, quote: char): string
  {
    if c == quote || c == '\\' then ['\\', c]
    else if c == '\n' then "\\n"
    else if c == '\r' then "\\r"
    else if c == '\t' then "\\t"
    else if c < ' ' || c as int == 0x7f then "\\x" + [HexDigit(c as int / 16), HexDigit(c as int % 16)]
    else [c]
  }

  function ReprBody(s: string, quote: char): string
  {
    if s == [] then [] else ReprChar(s[0], quote) + ReprBody(s[1..], quote)
  }

  /** repr() of a str: single quotes, unless the text holds a single quote and no double quote. */
  function ReprStr(s: string): string
  {
    var quote := if '\'' in s && '"' !in s then '"' else '\'';
    [quote] + ReprBody(s, quote) + [quote]
  }

  /** repr() of the items of a list of str, separated by ", ". */
  function ReprItems(items: seq<string>): string
  {
    if |items| == 0 then []
    else if |items| == 1 then ReprStr(items[0])
    else ReprStr(items[0]) + ", " + ReprItems(items[1..])
  }

  /** str() of a list of str. */
  function ReprList(items: seq<string>): string
  {
    "[" + ReprItems(items) + "]"
  }

  /** Text that repr() copies between single quotes unchanged. */
  predicate PlainText(s: string)
  {
    forall i :: 0 <= i < |s| ==> s[i] != '\'' && s[i] != '\\' && s[i] >= ' ' && s[i] as int != 0x7f
  }

  lemma {:induction false} ReprBodyOfPlain(s: string)
    requires PlainText(s)
    ensures ReprBody(s, '\'') == s
    decreases |s|
  {
    if s != [] {
      assert PlainText(s[1..]) by {
        forall i | 0 <= i < |s[1..]| ensures s[1..][i] == s[i + 1] { }
      }
      ReprBodyOfPlain(s[1..]);
      assert [s[0]] + s[1..] == s;
    }
  }

  lemma ReprStrOfPlain(s: string)
    requires PlainText(s)
    ensures ReprStr(s) == "'" + s + "'"
  {
    assert '\'' !in s by {
      assert forall i :: 0 <= i < |s| ==> s[i] != '\'';
    }
    ReprBodyOfPlain(s);
  }

  /** str(v) as an f-string writes it. */
  function Show(v: Value): string
  {
    match v
    case NoneValue => "None"
    case Str(s) => s
    case Int(i) => IntToString(i)
    case Float(text) => text
    case StrList(items) => ReprList(items)
  }

  // ---------------------------------------------------------------------------
  // to_csv and the CSV reading of its output
  // ---------------------------------------------------------------------------

  /** One cell of a CSV line: written bare, or wrapped in double quotes (never escaped). */
  datatype Cell = Bare(text: string) | Quoted(text: string)

  function CellText(c: Cell): string
  {
    match c
    case Bare(t) => t
    case Quoted(t) => "\"" + t + "\""
  }

  /** The cells joined by commas. */
  function Line(cells: seq<Cell>): string
  {
    if |cells| == 0 then []
    else if |cells| == 1 then CellText(cells[0])
    else CellText(cells[0]) + "," + Line(cells[1..])
  }

  const Columns: seq<string> := ["v_id", "creator", "desc", "duration", "likes", "comments", "sound", "tags"]

  /** The header line: the column names joined by commas. */
  const Header: string :=
    "v_id" + "," + ("creator" + "," + ("desc" + "," + ("duration" + "," + ("likes" + "," +
    ("comments" + "," + ("sound" + "," + "tags"))))))

  lemma HeaderIsJoin()
    ensures Header == Join(Columns, ',')
  {
  }

  /** The cells of a record's row, in header order, likes and comments already expanded. */
  function RowCells(v: VideoInfo, likes: Value, comments: Value): seq<Cell>
  {
    [Bare(Show(v.vid)), Quoted(Show(v.creator)), Quoted(Show(v.desc)), Bare(Show(v.duration)),
     Bare(Show(likes)), Bare(Show(comments)), Quoted(Show(v.sound)), Quoted(Show(v.tags))]
  }

  /** VideoInfo.to_csv: the row and the header. It fails exactly when expanding likes
      or comments fails, likes first; the header never depends on the record. */
  function ToCsv(v: VideoInfo): (r: Result<(string, string)>)
    ensures r.Ok? <==> NumStrToInt(v.likes).Ok? && NumStrToInt(v.comments).Ok?
    ensures NumStrToInt(v.likes).Err? ==> r == Err(NumStrToInt(v.likes).error)
    ensures NumStrToInt(v.likes).Ok? && NumStrToInt(v.comments).Err? ==> r == Err(NumStrToInt(v.comments).error)
    ensures r.Ok? ==> r.value.1 == Header
  {
    match NumStrToInt(v.likes)
    case Err(e) => Err(e)
    case Ok(likes) =>
      match NumStrToInt(v.comments)
      case Err(e) => Err(e)
      case Ok(comments) => Ok((Line(RowCells(v, likes, comments)), Header))
  }

  /** The header line written by Bot's constructor, from VideoInfo(0, "", "", [], 1). */
  lemma InitialHeader()
    ensures ToCsv(NewVideoInfo(Int(0), Str(""), Str(""), StrList([]), Int(1))).Ok?
    ensures ToCsv(NewVideoInfo(Int(0), Str(""), Str(""), StrList([]), Int(1))).value.1 == Header
  {
  }

  /** A reader's view of a CSV line: fields split at commas outside double quotes, the
      quote characters dropped. It is the partner against which rows are checked. */
  function CsvFields(line: string): seq<string>
  {
    Scan(line, false, [])
  }

  function Scan(s: string, inQuotes: bool, current: string): seq<string>
    decreases |s|
  {
    if s == [] then [current]
    else if s[0] == '"' then Scan(s[1..], !inQuotes, current)
    else if s[0] == ',' && !inQuotes then [current] + Scan(s[1..], false, [])
    else Scan(s[1..], inQuotes, current + [s[0]])
  }

  /** Text the scanner copies without changing state. */
  lemma {:induction false} ScanCopies(t: string, rest: string, inQuotes: bool, current: string)
    requires '"' !in t
    requires !inQuotes ==> ',' !in t
    ensures Scan(t + rest, inQuotes, current) == Scan(rest, inQuotes, current + t)
    decreases |t|
  {
    if t != [] {
      assert (t + rest)[1..] == t[1..] + rest;
      assert t[0] in t;
      assert forall x :: x in t[1..] ==> x in t;
      ScanCopies(t[1..], rest, inQuotes, current + [t[0]]);
      assert current + [t[0]] + t[1..] == current + t;
    } else {
      assert t + rest == rest && current + t == current;
    }
  }

  /** A cell whose text the CSV reading gives back as it was. */
  predicate ReadableCell(c: Cell)
  {
    match c
    case Bare(t) => '"' !in t && ',' !in t
    case Quoted(t) => '"' !in t
  }

  function Texts(cells: seq<Cell>): seq<string>
  {
    if cells == [] then [] else [cells[0].text] + Texts(cells[1..])
  }

  lemma ScanCell(c: Cell, rest: string)
    requires ReadableCell(c)
    ensures Scan(CellText(c) + rest, false, []) == Scan(rest, false, c.text)
  {
    match c
    case Bare(t) =>
      ScanCopies(t, rest, false, []);
      assert [] + t == t;
    case Quoted(t) =>
      var closing := "\"" + rest;
      assert CellText(c) + rest == "\"" + (t + closing);
      assert ("\"" + (t + closing))[1..] == t + closing;
      assert Scan(CellText(c) + rest, false, []) == Scan(t + closing, true, []);
      ScanCopies(t, closing, true, []);
      assert closing[1..] == rest;
      assert [] + t == t;
      assert Scan(closing, true, t) == Scan(rest, false, t);
  }

  /** A comma outside quotes ends the current field. */
  lemma ScanComma(rest: string, current: string)
    ensures Scan("," + rest, false, current) == [current] + Scan(rest, false, [])
  {
    assert ("," + rest)[1..] == rest;
  }

  /** Reading a line made of readable cells gives back their texts, one field per cell. */
  lemma {:induction false} CsvFieldsOfLine(cells: seq<Cell>)
    requires |cells| >= 1
    requires forall k :: 0 <= k < |cells| ==> ReadableCell(cells[k])
    ensures CsvFields(Line(cells)) == Texts(cells)
    decreases |cells|
  {
    if |cells| == 1 {
      ScanCell(cells[0], []);
      assert CellText(cells[0]) + [] == CellText(cells[0]);
    } else {
      var rest := Line(cells[1..]);
      assert Line(cells) == CellText(cells[0]) + ("," + rest);
      assert Scan(Line(cells), false, []) == Scan("," + rest, false, cells[0].text) by {
        ScanCell(cells[0], "," + rest);
      }
      assert Scan("," + rest, false, cells[0].text) == [cells[0].text] + Scan(rest, false, []) by {
        ScanComma(rest, cells[0].text);
      }
      assert Scan(rest, false, []) == Texts(cells[1..]) by {
        CsvFieldsOfLine(cells[1..]);
      }
    }
  }

  /** Reading comma-joined text free of commas and double quotes gives back the pieces. */
  lemma {:induction false} CsvFieldsOfJoin(parts: seq<string>)
    requires |parts| >= 1
    requires forall k :: 0 <= k < |parts| ==> ',' !in parts[k] && '"' !in parts[k]
    ensures CsvFields(Join(parts, ',')) == parts
    decreases |parts|
  {
    if |parts| == 1 {
      ScanCopies(parts[0], [], false, []);
      assert parts[0] + [] == parts[0] && [] + parts[0] == parts[0];
    } else {
      var rest := Join(parts[1..], ',');
      assert Join(parts, ',') == parts[0] + ([','] + rest);
      ScanCopies(parts[0], [','] + rest, false, []);
      assert [] + parts[0] == parts[0];
      ScanComma(rest, parts[0]);
      CsvFieldsOfJoin(parts[1..]);
      assert [parts[0]] + parts[1..] == parts;
    }
  }

  /** The header reads back as the eight column names. */
  lemma HeaderFields()
    ensures CsvFields(Header) == Columns
    ensures |CsvFields(Header)| == 8
  {
    HeaderIsJoin();
    ColumnsUnquoted();
    CsvFieldsOfJoin(Columns);
  }

  /** No column name holds a comma or a double quote. */
  lemma ColumnsUnquoted()
    ensures forall k :: 0 <= k < |Columns| ==> ',' !in Columns[k] && '"' !in Columns[k]
  {
    forall k | 0 <= k < |Columns|
      ensures ',' !in Columns[k] && '"' !in Columns[k]
    {
      var name := Columns[k];
      assert forall c :: c in name ==> 'a' <= c <= 'z' || c == '_';
    }
  }

  lemma TextsOfRow(cells: seq<Cell>)
    requires |cells| == 8
    ensures Texts(cells) == [cells[0].text, cells[1].text, cells[2].text, cells[3].text,
                             cells[4].text, cells[5].text, cells[6].text, cells[7].text]
  {
    assert Texts(cells[7..]) == [cells[7].text];
    assert Texts(cells[6..]) == [cells[6].text] + Texts(cells[7..]) by { assert cells[6..][1..] == cells[7..]; }
    assert Texts(cells[5..]) == [cells[5].text] + Texts(cells[6..]) by { assert cells[5..][1..] == cells[6..]; }
    assert Texts(cells[4..]) == [cells[4].text] + Texts(cells[5..]) by { assert cells[4..][1..] == cells[5..]; }
    assert Texts(cells[3..]) == [cells[3].text] + Texts(cells[4..]) by { assert cells[3..][1..] == cells[4..]; }
    assert Texts(cells[2..]) == [cells[2].text] + Texts(cells[3..]) by { assert cells[2..][1..] == cells[3..]; }
    assert Texts(cells[1..]) == [cells[1].text] + Texts(cells[2..]) by { assert cells[1..][1..] == cells[2..]; }
  }

  /** Values whose text never breaks the CSV reading of a row: no double quote
      anywhere, and no comma in the four unquoted columns. */
  predicate CsvSafe(v: VideoInfo, likes: Value, comments: Value)
  {
    && ReadableCell(Bare(Show(v.vid))) && ReadableCell(Bare(Show(v.duration)))
    && ReadableCell(Bare(Show(likes))) && ReadableCell(Bare(Show(comments)))
    && '"' !in Show(v.creator) && '"' !in Show(v.desc)
    && '"' !in Show(v.sound) && '"' !in Show(v.tags)
  }

  /** Reading a row built from the record's cells gives back the eight texts. */
  lemma RowCellsReadBack(v: VideoInfo, likes: Value, comments: Value)
    requires CsvSafe(v, likes, comments)
    ensures CsvFields(Line(RowCells(v, likes, comments))) ==
      [Show(v.vid), Show(v.creator), Show(v.desc), Show(v.duration),
       Show(likes), Show(comments), Show(v.sound), Show(v.tags)]
  {
    var cells := RowCells(v, likes, comments);
    forall k | 0 <= k < |cells| ensures ReadableCell(cells[k]) {
    }
    CsvFieldsOfLine(cells);
    TextsOfRow(cells);
  }

  /** Reading a row written by to_csv gives one field per header column, in header
      order, holding exactly what str() printed for that field. */
  lemma RowReadsBack(v: VideoInfo)
    requires ToCsv(v).Ok?
    requires CsvSafe(v, NumStrToInt(v.likes).value, NumStrToInt(v.comments).value)
    ensures |CsvFields(ToCsv(v).value.0)| == |Columns|
    ensures CsvFields(ToCsv(v).value.0) ==
      [Show(v.vid), Show(v.creator), Show(v.desc), Show(v.duration),
       Show(NumStrToInt(v.likes).value), Show(NumStrToInt(v.comments).value),
       Show(v.sound), Show(v.tags)]
  {
    var likes := NumStrToInt(v.likes).value;
    var comments := NumStrToInt(v.comments).value;
    assert ToCsv(v).value.0 == Line(RowCells(v, likes, comments));
    RowCellsReadBack(v, likes, comments);
  }
}
