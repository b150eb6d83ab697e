/**
 * The results file: one line per algorithm, read in full, changed in memory and written back
 * in full. The file is its sequence of lines; reading a line and writing one with `newLine()`
 * are the identity on that sequence.
 */
module ResultFile {
  import opened JavaText
  import opened Results
  import opened LinkedMaps

  // ----- reading ------------------------------------------------------------------------------

  /** What `findAll` does with one line: skips it when blank or malformed, else keeps its record. */
  datatype LineRead = BlankLine | Malformed | Read(record: Record)

  /** One line, read: `line.trim().isEmpty()` is `Blank(line)` by `TrimEmpty`, then `fromCsvRow`. */
  function ReadLine(line: string): (d: LineRead)
    ensures d.Read? ==> !Blank(line) && DecodeRow(line) == Decoded(d.record)
    ensures d.Read? ==> ',' !in d.record.name
  {
    if Blank(line) then BlankLine
    else match DecodeRow(line)
      case Decoded(r) => Read(r)
      case _ => Malformed
  }

  /** The reading of each line. */
  function Reads(lines: seq<string>): (ds: seq<LineRead>)
    ensures |ds| == |lines| && forall i :: 0 <= i < |lines| ==> ds[i] == ReadLine(lines[i])
  {
    seq(|lines|, i requires 0 <= i < |lines| => ReadLine(lines[i]))
  }

  /** The records of the lines that were read, in order. */
  function Kept(ds: seq<LineRead>): (rs: seq<Record>)
    ensures |rs| <= |ds|
  {
    if ds == [] then []
    else
      var d := ds[|ds| - 1];
      Kept(ds[..|ds| - 1]) + (if d.Read? then [d.record] else [])
  }

  /** `findAll` on the lines: the record of each line that is not blank and reads as one, in file order. */
  function Readable(lines: seq<string>): seq<Record> {
    Kept(Reads(lines))
  }

  /** Each kept record comes from a line that read as it. */
  lemma {:induction false} KeptFrom(ds: seq<LineRead>)
    ensures forall i :: 0 <= i < |Kept(ds)| ==> Read(Kept(ds)[i]) in ds
  {
    if ds != [] {
      var p := ds[..|ds| - 1];
      KeptFrom(p);
      forall i | 0 <= i < |Kept(ds)| ensures Read(Kept(ds)[i]) in ds {
        if i < |Kept(p)| {
          assert Kept(ds)[i] == Kept(p)[i];
          assert Read(Kept(p)[i]) in p;
        }
      }
    }
  }

  /** The names `findAll` returns hold no comma. */
  lemma ReadableCommaFree(lines: seq<string>)
    ensures forall i :: 0 <= i < |Readable(lines)| ==> ',' !in Readable(lines)[i].name
  {
    KeptFrom(Reads(lines));
    forall i | 0 <= i < |Readable(lines)| ensures ',' !in Readable(lines)[i].name {
      var j :| 0 <= j < |lines| && Reads(lines)[j] == Read(Readable(lines)[i]);
      assert ReadLine(lines[j]).Read?;
    }
  }

  /** Lines that each read as a record keep exactly those records. */
  lemma {:induction false} KeptAll(ds: seq<LineRead>, rs: seq<Record>)
    requires |ds| == |rs|
    requires forall i :: 0 <= i < |rs| ==> ds[i] == Read(rs[i])
    ensures Kept(ds) == rs
  {
    if rs != [] {
      var k := |rs| - 1;
      KeptAll(ds[..k], rs[..k]);
      assert rs[..k] + [rs[k]] == rs;
    }
  }

  /** A line that does not read as a record adds nothing. */
  lemma SkipLine(lines: seq<string>, line: string)
    requires !ReadLine(line).Read?
    ensures Readable(lines + [line]) == Readable(lines)
  {
    assert Reads(lines + [line])[..|lines|] == Reads(lines);
  }

  // ----- the map of results by name -----------------------------------------------------------

  /** The entries the loading loop puts: each result under its name. */
  function Entries(rs: seq<Record>): (es: seq<(string, Record)>)
    ensures |es| == |rs| && forall i :: 0 <= i < |rs| ==> es[i] == (rs[i].name, rs[i])
  {
    seq(|rs|, i requires 0 <= i < |rs| => (rs[i].name, rs[i]))
  }

  /** Every result is stored under its own name. */
  predicate Keyed(m: LinkedMap<string, Record>) {
    forall k | k in m.values :: m.values[k].name == k
  }

  /** The map loaded from a list of results stores each under its name. */
  lemma LoadedKeyed(rs: seq<Record>)
    ensures Keyed(Load(Entries(rs)))
  {
    var es := Entries(rs);
    LoadLatest(es);
    forall k | k in Load(es).values ensures Load(es).values[k].name == k {
      var v := Latest(es, k);
      var j :| 0 <= j < |es| && es[j] == (k, v);
      assert rs[j] == v;
    }
  }

  /** The names of the map loaded from the file are names read from it, so they hold no comma. */
  lemma LoadedCommaFree(lines: seq<string>)
    ensures forall k | k in Load(Entries(Readable(lines))).values :: ',' !in k
  {
    var rs := Readable(lines);
    var es := Entries(rs);
    LoadKeys(es);
    ReadableCommaFree(lines);
    forall k | k in Load(es).values ensures ',' !in k {
      assert rs[FirstIndex(es, k)].name == k;
    }
  }

  /** A map that stores each result under its name loads back as itself from its values. */
  lemma LoadValues(m: LinkedMap<string, Record>)
    requires Valid(m) && Keyed(m)
    ensures Load(Entries(Values(m))) == m
  {
    var es := Entries(Values(m));
    assert forall i :: 0 <= i < |es| ==> es[i] == (m.keys[i], m.values[m.keys[i]]);
    assert es == Items(m);
    LoadItems(m);
  }

  // ----- writing ------------------------------------------------------------------------------

  /** The lines the results are written as: one `toCsvRow` each, in order. */
  function Rows(rs: seq<Record>): (lines: seq<string>)
    ensures |lines| == |rs|
    ensures forall i :: 0 <= i < |rs| ==> lines[i] == EncodeRow(rs[i])
  {
    seq(|rs|, i requires 0 <= i < |rs| => EncodeRow(rs[i]))
  }

  /** Lines that are each one result's row are the rows of those results. */
  lemma RowsAre(lines: seq<string>, rs: seq<Record>)
    requires |lines| == |rs| && forall j :: 0 <= j < |rs| ==> lines[j] == EncodeRow(rs[j])
    ensures lines == Rows(rs)
  {
  }

  /** The lines of the first `i` results, with the row of the next result added. */
  lemma RowsStep(lines: seq<string>, rs: seq<Record>, i: nat, row: string)
    requires i < |rs| && row == EncodeRow(rs[i])
    requires |lines| == i && forall j :: 0 <= j < i ==> lines[j] == EncodeRow(rs[j])
    ensures forall j :: 0 <= j < i + 1 ==> (lines + [row])[j] == EncodeRow(rs[j])
  {
    forall j | 0 <= j < i + 1 ensures (lines + [row])[j] == EncodeRow(rs[j]) {
      if j < i {
        assert (lines + [row])[j] == lines[j];
      } else {
        assert (lines + [row])[j] == row;
      }
    }
  }

  /** One more result writes one more line at the end. */
  lemma RowsSnoc(rs: seq<Record>, r: Record)
    ensures Rows(rs + [r]) == Rows(rs) + [EncodeRow(r)]
  {
  }

  /** Results whose names hold no comma are read back from their lines exactly. */
  lemma ReadRows(rs: seq<Record>)
    requires forall i :: 0 <= i < |rs| ==> ',' !in rs[i].name
    ensures Readable(Rows(rs)) == rs
  {
    var ds := Reads(Rows(rs));
    forall i | 0 <= i < |rs| ensures ds[i] == Read(rs[i]) {
      RowNotBlank(rs[i]);
      RowRoundTrip(rs[i]);
    }
    KeptAll(ds, rs);
  }

  /** The map `saveOrUpdate(r)` builds from the lines: every result read, then `r`, each put under its name. */
  function SaveMap(lines: seq<string>, r: Record): (m: LinkedMap<string, Record>)
    ensures Valid(m)
  {
    Put(Load(Entries(Readable(lines))), r.name, r)
  }

  /** The lines `saveOrUpdate(r)` leaves in the file: the values of the map, in its order. */
  function Saved(lines: seq<string>, r: Record): seq<string> {
    Rows(Values(SaveMap(lines, r)))
  }

  /** The map `saveOrUpdate(r)` builds stores each result under its name. */
  lemma SaveMapKeyed(lines: seq<string>, r: Record)
    ensures Keyed(SaveMap(lines, r))
  {
    LoadedKeyed(Readable(lines));
  }

  /**
   * After `saveOrUpdate(r)` the file reads as the values of the map it built: the results it
   * held, one per name, and `r` under its own name.
   */
  lemma Saving(lines: seq<string>, r: Record)
    requires ',' !in r.name
    ensures Readable(Saved(lines, r)) == Values(SaveMap(lines, r))
  {
    var m := SaveMap(lines, r);
    SaveMapKeyed(lines, r);
    LoadedCommaFree(lines);
    var vs := Values(m);
    assert forall i :: 0 <= i < |vs| ==> vs[i].name == m.keys[i] && m.keys[i] in m.values;
    ReadRows(vs);
  }

  /**
   * The results `saveOrUpdate(r)` writes, which are what the file then reads as by `Saving`,
   * hold `r`; every one with `r`'s name is `r`; no two share a name.
   */
  lemma SavedOnce(lines: seq<string>, r: Record)
    ensures var after := Values(SaveMap(lines, r));
      && r in after
      && (forall i :: 0 <= i < |after| ==> (after[i].name == r.name <==> after[i] == r))
      && (forall i, j :: 0 <= i < j < |after| ==> after[i].name != after[j].name)
  {
    var m := SaveMap(lines, r);
    SaveMapKeyed(lines, r);
    var after := Values(m);
    var i :| 0 <= i < |m.keys| && m.keys[i] == r.name;
    assert after[i] == r;
    assert forall i :: 0 <= i < |after| ==> after[i].name == m.keys[i] && m.keys[i] in m.values;
  }

  /** Among the results `saveOrUpdate(r)` writes, every other one is the last result the file held under that name. */
  lemma SavedLatest(lines: seq<string>, r: Record)
    ensures var es, after := Entries(Readable(lines)), Values(SaveMap(lines, r));
      forall i :: 0 <= i < |after| && after[i].name != r.name ==>
        FirstIndex(es, after[i].name) < |es| && after[i] == Latest(es, after[i].name)
  {
    var es := Entries(Readable(lines));
    var m0, m := Load(es), SaveMap(lines, r);
    SaveMapKeyed(lines, r);
    LoadLatest(es);
    var after := Values(m);
    forall i | 0 <= i < |after| && after[i].name != r.name
      ensures FirstIndex(es, after[i].name) < |es| && after[i] == Latest(es, after[i].name)
    {
      var k := m.keys[i];
      assert k in m.values && after[i].name == k;
      assert k != r.name && k in m0.values;
    }
  }

  /** Every name the file held is among the results `saveOrUpdate(r)` writes. */
  lemma SavedKeepsNames(lines: seq<string>, r: Record)
    ensures var before, after := Readable(lines), Values(SaveMap(lines, r));
      forall i :: 0 <= i < |before| ==> exists j :: 0 <= j < |after| && after[j].name == before[i].name
  {
    var before := Readable(lines);
    var es := Entries(before);
    var m := SaveMap(lines, r);
    SaveMapKeyed(lines, r);
    LoadKeys(es);
    var after := Values(m);
    forall i | 0 <= i < |before| ensures exists j :: 0 <= j < |after| && after[j].name == before[i].name {
      var k := before[i].name;
      assert es[i].0 == k && FirstIndex(es, k) <= i;
      assert k in m.values;
      var j :| 0 <= j < |m.keys| && m.keys[j] == k;
      assert after[j].name == k;
    }
  }

  /**
   * The results `saveOrUpdate(r)` writes carry the keys of its map, in order; their order is
   * therefore the one `PutOrder` states for a loaded map after one more `put`.
   */
  lemma SavedNames(lines: seq<string>, r: Record)
    ensures var m := SaveMap(lines, r);
      forall i :: 0 <= i < |m.keys| ==> Values(m)[i].name == m.keys[i]
  {
    SaveMapKeyed(lines, r);
  }

  /** Reading back the saved file loads the same map again. */
  lemma Reload(lines: seq<string>, r: Record)
    requires ',' !in r.name
    ensures Load(Entries(Readable(Saved(lines, r)))) == SaveMap(lines, r)
  {
    Saving(lines, r);
    SaveMapKeyed(lines, r);
    LoadValues(SaveMap(lines, r));
  }

  /** Saving the same result again builds the same map. */
  lemma SaveAgainMap(lines: seq<string>, r: Record)
    requires ',' !in r.name
    ensures SaveMap(Saved(lines, r), r) == SaveMap(lines, r)
  {
    Reload(lines, r);
    PutSame(SaveMap(lines, r), r.name, r);
  }

  /** Saving the same result twice leaves the file as saving it once. */
  lemma SaveTwice(lines: seq<string>, r: Record)
    requires ',' !in r.name
    ensures Saved(Saved(lines, r), r) == Saved(lines, r)
  {
    SaveAgainMap(lines, r);
  }

  /** A result whose name holds a comma is written, but the file reads back as if it had not been saved. */
  lemma CommaNameLost(lines: seq<string>, r: Record)
    requires ',' in r.name
    ensures Readable(Saved(lines, r)) == Values(Load(Entries(Readable(lines))))
  {
    var rs := Readable(lines);
    var m0 := Load(Entries(rs));
    LoadedKeyed(rs);
    LoadedCommaFree(lines);
    PutNewValues(m0, r.name, r);
    var vs0 := Values(m0);
    assert forall i :: 0 <= i < |vs0| ==> vs0[i].name == m0.keys[i] && m0.keys[i] in m0.values;
    ReadRows(vs0);
    CommaRejected(r);
    RowNotBlank(r);
    RowsSnoc(vs0, r);
    SkipLine(Rows(vs0), EncodeRow(r));
  }

  /** The lines the results are written as, one at a time. */
  method WriteRows(rs: seq<Record>) returns (written: seq<string>)
    ensures written == Rows(rs)
  {
    written := [];
    for i := 0 to |rs|
      invariant |written| == i
      invariant forall j :: 0 <= j < i ==> written[j] == EncodeRow(rs[j])
    {
      var row := EncodeRow(rs[i]);
      RowsStep(written, rs, i, row);
      written := written + [row];
    }
    RowsAre(written, rs);
  }

  // ----- the file-backed store ----------------------------------------------------------------

  /** `AlgorithmResultDAOFile`: the results file, as its lines. */
  class AlgorithmResultFile {
    var lines: seq<string>

    /** The constructor makes sure the file exists: what it holds is kept, a new file has no lines. */
    constructor (existing: seq<string>)
      ensures lines == existing
    {
      lines := existing;
    }

    /** `findAll`: every non-blank line that reads as a record, in order; the others are skipped. */
    method FindAll() returns (results: seq<Record>)
      ensures results == Readable(lines)
    {
      results := [];
      var i := 0;
      while i < |lines|
        invariant 0 <= i <= |lines|
        invariant results == Readable(lines[..i])
      {
        var line := lines[i];
        assert lines[..i + 1][..i] == lines[..i];
        assert Reads(lines[..i + 1])[..i] == Reads(lines[..i]);
        if !Blank(line) {
          var d := DecodeRow(line);
          if d.Decoded? {
            results := results + [d.record];
          }
        }
        i := i + 1;
      }
      assert lines[..i] == lines;
    }

    /** `saveOrUpdate`: load the results into a map by name, put `result`, write every value back. */
    method SaveOrUpdate(result: Record)
      modifies this
      ensures lines == Saved(old(lines), result)
    {
      var all := FindAll();
      var resultsMap := LoadEntries(Entries(all));
      resultsMap := Put(resultsMap, result.name, result);
      lines := WriteRows(Values(resultsMap));
    }

    /** `clearAll`: the file is emptied, so `findAll` returns no results. */
    method ClearAll()
      modifies this
      ensures lines == [] && Readable(lines) == []
    {
      lines := [];
    }
  }
}
