/**
 * One line of the results file: an algorithm's name, its running time and the length of the
 * path it found, written as `name,time,length` and read back with `split(",")` and the Java
 * number parsers.
 */
module Results {
  import opened JavaText

  /** The three values a result carries. */
  datatype Record = Record(name: string, time: Int64, length: Int32)

  /**
   * What `fromCsvRow` makes of a line: a record, or one of its two `IllegalArgumentException`s,
   * a field count other than three or a number that does not parse.
   */
  datatype Decoded = Decoded(record: Record) | WrongFieldCount | NumberFormatError

  /** `toCsvRow`: the name, the time and the length, separated by commas. */
  function EncodeRow(r: Record): string {
    r.name + "," + Decimal(r.time) + "," + Decimal(r.length)
  }

  /** `fromCsvRow`: exactly three fields after `split(",")`, the second a `long` and the third an `int`. */
  function DecodeRow(row: string): (d: Decoded)
    ensures d.Decoded? ==> ',' !in d.record.name
  {
    var parts := Split(row, ',');
    if |parts| != 3 then WrongFieldCount
    else
      FieldsFree(row, ',');
      var time := ParseLong(parts[1]);
      var length := ParseInt(parts[2]);
      if time.NumberFormatException? || length.NumberFormatException? then NumberFormatError
      else Decoded(Record(parts[0], time.value, length.value))
  }

  /** The line a record is written as, cut at its two commas. */
  lemma RowFields(r: Record)
    ensures Fields(EncodeRow(r), ',') == Fields(r.name, ',') + [Decimal(r.time), Decimal(r.length)]
  {
    var t, l := Decimal(r.time), Decimal(r.length);
    assert EncodeRow(r) == r.name + [','] + (t + [','] + l);
    FieldsJoin(r.name, t + [','] + l, ',');
    FieldsJoin(t, l, ',');
    FieldsOne(t, ',');
    FieldsOne(l, ',');
  }

  /** Reading back a written record gives the record, whenever its name holds no comma. */
  lemma RowRoundTrip(r: Record)
    requires ',' !in r.name
    ensures DecodeRow(EncodeRow(r)) == Decoded(r)
  {
    var row := EncodeRow(r);
    RowFields(r);
    FieldsOne(r.name, ',');
    assert row[|r.name|] == ',';
    assert Split(row, ',') == [r.name, Decimal(r.time), Decimal(r.length)];
    LongRoundTrip(r.time);
    IntRoundTrip(r.length);
  }

  /** A record whose name holds a comma is written as a line that cannot be read back. */
  lemma CommaRejected(r: Record)
    requires ',' in r.name
    ensures DecodeRow(EncodeRow(r)) == WrongFieldCount
  {
    var row := EncodeRow(r);
    RowFields(r);
    FieldsMany(r.name, ',');
    assert row[|r.name| + 1 + |Decimal(r.time)|] == ',';
    var f := Fields(row, ',');
    assert f[|f| - 1] == Decimal(r.length) != [];
    assert Split(row, ',') == f;
  }

  /** A comma at the end of a line that holds one leaves its reading unchanged: `split` drops the empty last field. */
  lemma TrailingCommaIgnored(row: string)
    requires ',' in row
    ensures DecodeRow(row + [',']) == DecodeRow(row)
  {
    SplitTrailing(row, ',');
  }

  /** A written line always holds a character that `trim()` keeps. */
  lemma RowNotBlank(r: Record)
    ensures !Blank(EncodeRow(r)) && Trim(EncodeRow(r)) != []
  {
    var row := EncodeRow(r);
    TrimEmpty(row);
    BlankAll(row);
    assert row[|r.name|] == ',' && !Spacing(',');
  }

  /** The record class with its setters; `toCsvRow` writes its current values. */
  class AlgorithmResult {
    var algorithmName: string
    var executionTime: Int64
    var pathLength: Int32

    constructor (algorithmName: string, executionTime: Int64, pathLength: Int32)
      ensures this.algorithmName == algorithmName && this.executionTime == executionTime && this.pathLength == pathLength
    {
      this.algorithmName := algorithmName;
      this.executionTime := executionTime;
      this.pathLength := pathLength;
    }

    /** The values the getters return. */
    function Value(): Record
      reads this
    {
      Record(algorithmName, executionTime, pathLength)
    }

    /** `toCsvRow`: the current values as a line, which reads back as them when the name holds no comma. */
    function ToCsvRow(): (row: string)
      reads this
      ensures ',' !in algorithmName ==> DecodeRow(row) == Decoded(Value())
      ensures ',' in algorithmName ==> DecodeRow(row) == WrongFieldCount
    {
      var row := EncodeRow(Value());
      if ',' in algorithmName then CommaRejected(Value()); row
      else RowRoundTrip(Value()); row
    }

    method SetAlgorithmName(algorithmName: string)
      modifies this`algorithmName
      ensures Value() == old(Value()).(name := algorithmName)
    {
      this.algorithmName := algorithmName;
    }

    method SetExecutionTime(executionTime: Int64)
      modifies this`executionTime
      ensures Value() == old(Value()).(time := executionTime)
    {
      this.executionTime := executionTime;
    }

    method SetPathLength(pathLength: Int32)
      modifies this`pathLength
      ensures Value() == old(Value()).(length := pathLength)
    {
      this.pathLength := pathLength;
    }

    /** `fromCsvRow`: a new object with the line's values, or the reason the line is rejected. */
    static method FromCsvRow(row: string) returns (r: AlgorithmResult?, d: Decoded)
      ensures d == DecodeRow(row)
      ensures d.Decoded? ==> r != null && fresh(r) && r.Value() == d.record
      ensures !d.Decoded? ==> r == null
    {
      d := DecodeRow(row);
      if d.Decoded? {
        r := new AlgorithmResult(d.record.name, d.record.time, d.record.length);
      } else {
        r := null;
      }
    }
  }
}
