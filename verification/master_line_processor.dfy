/** MasterLineProcessor: each master line's lines from the master line
    details entries, and master lines from master line entries. */
module MasterLineProcessor {
  import opened Results
  import opened Text
  import opened Numbers
  import opened Records
  import opened Collections
  import opened Entities

  // -------------------------------------------- lines per master line

  /** One master line details entry: the master line id (field 1) and the
      line id (field 2) are read; a line the map lacks gives nothing, a known
      one is paired with its master line id. */
  function LineOfDetail(entry: string, lines: map<int, Line>): (r: Result<Option<(int, Line)>>)
    ensures r.Ok? <==> var v := Fields(entry); |v| >= 3 && ToInt(v[1]).Ok? && ToInt(v[2]).Ok?
    ensures r.Ok? ==> (r.value.Some? <==> ToInt(Fields(entry)[2]).value in lines)
    ensures r.Ok? && r.value.Some? ==> var v := Fields(entry);
      ToInt(v[1]) == Ok(r.value.value.0) && r.value.value.1 == lines[ToInt(v[2]).value]
    ensures r.Err? ==> r.error.IndexOutOfBounds? || r.error.NumberFormat?
  {
    var v := Fields(entry);
    var masterLineId :- IntField(v, 1);
    var lineId :- IntField(v, 2);
    if lineId in lines then Ok(Some((masterLineId, lines[lineId]))) else Ok(None)
  }

  /** getLinesForMasterLineIds: the known lines of every master line, in entry
      order. An unknown line is skipped and is never an error; a master line
      all of whose entries name unknown lines gets no list at all. */
  function GetLinesForMasterLineIds(entries: seq<string>, lines: map<int, Line>): (r: Result<map<int, seq<Line>>>)
    ensures r.Ok? <==> forall i :: 0 <= i < |entries| ==> LineOfDetail(entries[i], lines).Ok?
    ensures r.Err? ==> r.error.IndexOutOfBounds? || r.error.NumberFormat?
    ensures r.Ok? ==> forall k :: k in r.value <==>
      exists i :: 0 <= i < |entries| && LineOfDetail(entries[i], lines).value.Some? &&
                  LineOfDetail(entries[i], lines).value.value.0 == k
    ensures r.Ok? ==> forall k, line :: k in r.value ==>
      (line in r.value[k] <==> exists i :: 0 <= i < |entries| && LineOfDetail(entries[i], lines).value == Some((k, line)))
    ensures r.Ok? ==> forall k, line :: k in r.value && line in r.value[k] ==> line in lines.Values
    ensures r.Ok? ==> forall k :: k in r.value ==> |r.value[k]| > 0
    ensures r.Ok? ==> forall k :: k in r.value ==>
      r.value[k] == Select(Somes(MapAll(entries, e => LineOfDetail(e, lines)).value), k)
  {
    var r := GroupDecodedPresent(entries, e => LineOfDetail(e, lines));
    if r.Err? then
      DetailErrors(entries, lines, r.error);
      r
    else
      KnownLines(entries, lines, r.value);
      r
  }

  /** A details error is an index or number error. */
  lemma DetailErrors(entries: seq<string>, lines: map<int, Line>, err: Error)
    requires exists i :: 0 <= i < |entries| && LineOfDetail(entries[i], lines) == Err(err)
    ensures err.IndexOutOfBounds? || err.NumberFormat?
  {
    var i :| 0 <= i < |entries| && LineOfDetail(entries[i], lines) == Err(err);
  }

  /** The grouped lines are known lines, and every group is non-empty. */
  lemma KnownLines(entries: seq<string>, lines: map<int, Line>, m: map<int, seq<Line>>)
    requires forall i :: 0 <= i < |entries| ==> LineOfDetail(entries[i], lines).Ok?
    requires forall k :: k in m <==>
      exists i :: 0 <= i < |entries| && LineOfDetail(entries[i], lines).value.Some? &&
                  LineOfDetail(entries[i], lines).value.value.0 == k
    requires forall k, line :: k in m ==>
      (line in m[k] <==> exists i :: 0 <= i < |entries| && LineOfDetail(entries[i], lines).value == Some((k, line)))
    ensures forall k, line :: k in m && line in m[k] ==> line in lines.Values
    ensures forall k :: k in m ==> |m[k]| > 0
  {
    forall k, line | k in m && line in m[k]
      ensures line in lines.Values
    {
      var i :| 0 <= i < |entries| && LineOfDetail(entries[i], lines).value == Some((k, line));
    }
    forall k | k in m
      ensures |m[k]| > 0
    {
      var i :| 0 <= i < |entries| && LineOfDetail(entries[i], lines).value.Some? &&
               LineOfDetail(entries[i], lines).value.value.0 == k;
      var line := LineOfDetail(entries[i], lines).value.value.1;
      assert LineOfDetail(entries[i], lines).value == Some((k, line));
      assert line in m[k];
    }
  }

  /** Together the lists hold one line per entry that names a known line. */
  lemma MasterLineCountsAddUp(entries: seq<string>, lines: map<int, Line>, masterLineIds: seq<int>)
    requires GetLinesForMasterLineIds(entries, lines).Ok?
    requires Distinct(masterLineIds)
    requires forall k :: k in masterLineIds <==> k in GetLinesForMasterLineIds(entries, lines).value
    ensures var known := Somes(MapAll(entries, e => LineOfDetail(e, lines)).value);
      SumSizes(GetLinesForMasterLineIds(entries, lines).value, masterLineIds) == |known|
  {
    var f := e => LineOfDetail(e, lines);
    var m := GetLinesForMasterLineIds(entries, lines).value;
    var os := MapAll(entries, f).value;
    var ps := Somes(os);
    forall j | 0 <= j < |ps|
      ensures ps[j].0 in masterLineIds
    {
      assert ps[j] in ps;
      var i :| 0 <= i < |os| && os[i] == Some(ps[j]);
      assert f(entries[i]).value == Some(ps[j]);
    }
    SelectTotal(ps, masterLineIds);
    SumSizesOfSelect(m, ps, masterLineIds);
  }

  // ------------------------------------------------------ master lines

  /** One master line entry: id (field 0), number (1), names (2, 3); the
      lines are those the map holds for the id, none when it holds none. */
  function DecodeMasterLine(entry: string, linesForMasterLineIds: map<int, seq<Line>>): (r: Result<MasterLine>)
    ensures r.Ok? <==> var v := Fields(entry); |v| >= 4 && ToInt(v[0]).Ok?
    ensures r.Ok? ==> var v := Fields(entry);
      && ToInt(v[0]) == Ok(r.value.internalId)
      && r.value.number == v[1] && r.value.nameEL == v[2] && r.value.nameEN == v[3]
    ensures r.Ok? ==> (r.value.internalId in linesForMasterLineIds ==> r.value.lines == linesForMasterLineIds[r.value.internalId])
    ensures r.Ok? ==> (r.value.internalId !in linesForMasterLineIds ==> r.value.lines == [])
  {
    var v := Fields(entry);
    var id :- IntField(v, 0);
    var number :- Field(v, 1);
    var nameEL :- Field(v, 2);
    var nameEN :- Field(v, 3);
    var masterLines := if id in linesForMasterLineIds then linesForMasterLineIds[id] else [];
    Ok(MasterLine(id, number, nameEL, nameEN, masterLines))
  }

  function MasterLineKey(m: MasterLine): int {
    m.internalId
  }

  /** createMasterLines: every entry decoded, in order, each master line
      stored under its id; a later entry with the same id replaces an earlier one. */
  function CreateMasterLines(entries: seq<string>, linesForMasterLineIds: map<int, seq<Line>>): (r: Result<map<int, MasterLine>>)
    ensures var decode := e => DecodeMasterLine(e, linesForMasterLineIds);
      && (r.Ok? <==> forall i :: 0 <= i < |entries| ==> decode(entries[i]).Ok?)
      && (r.Ok? ==> forall k :: k in r.value <==> exists i :: 0 <= i < |entries| && decode(entries[i]).value.internalId == k)
      && (r.Ok? ==> forall k :: k in r.value ==> r.value[k].internalId == k)
      && (r.Ok? ==> forall i :: 0 <= i < |entries| && LastDecoded(entries, decode, MasterLineKey, i) ==>
                      r.value[decode(entries[i]).value.internalId] == decode(entries[i]).value)
    ensures r.Ok? ==> forall k :: k in r.value ==>
      r.value[k].lines == (if k in linesForMasterLineIds then linesForMasterLineIds[k] else [])
  {
    var decode := e => DecodeMasterLine(e, linesForMasterLineIds);
    var r := BuildIndex(entries, decode, MasterLineKey);
    if r.Ok? then
      MasterLinesCarryTheirLines(entries, linesForMasterLineIds, decode, r.value);
      r
    else r
  }

  /** Every built master line holds the lines the map gives its id. */
  lemma MasterLinesCarryTheirLines(entries: seq<string>, linesForMasterLineIds: map<int, seq<Line>>,
                                   decode: string -> Result<MasterLine>, m: map<int, MasterLine>)
    requires forall e :: decode(e) == DecodeMasterLine(e, linesForMasterLineIds)
    requires forall i :: 0 <= i < |entries| ==> decode(entries[i]).Ok?
    requires forall k :: k in m ==> exists i :: 0 <= i < |entries| && decode(entries[i]).value == m[k]
    requires forall k :: k in m ==> m[k].internalId == k
    ensures forall k :: k in m ==> m[k].lines == (if k in linesForMasterLineIds then linesForMasterLineIds[k] else [])
  {
    forall k | k in m
      ensures m[k].lines == (if k in linesForMasterLineIds then linesForMasterLineIds[k] else [])
    {
      var i :| 0 <= i < |entries| && decode(entries[i]).value == m[k];
    }
  }

  /** The text of a master line entry: id, number, names, and any further fields. */
  function EncodeMasterLine(id: int, number: string, nameEL: string, nameEN: string, rest: seq<string>): string {
    Join([IntToString(id), number, nameEL, nameEN] + rest, ",")
  }

  /** A master line read back from its entry has the entry's id, number and
      names, whatever the fields after them hold. */
  lemma DecodeMasterLineRoundTrip(id: int, number: string, nameEL: string, nameEN: string, rest: seq<string>,
                                  linesForMasterLineIds: map<int, seq<Line>>)
    requires IsInt32(id)
    requires ',' !in number && ',' !in nameEL && ',' !in nameEN
    requires forall i :: 0 <= i < |rest| ==> ',' !in rest[i]
    ensures var r := DecodeMasterLine(EncodeMasterLine(id, number, nameEL, nameEN, rest), linesForMasterLineIds);
      r.Ok? && r.value.internalId == id && r.value.number == number && r.value.nameEL == nameEL && r.value.nameEN == nameEN
  {
    var v := [IntToString(id), number, nameEL, nameEN] + rest;
    IntTextIsField(id);
    FieldsOfJoin(v);
    assert Fields(EncodeMasterLine(id, number, nameEL, nameEN, rest)) == v;
    IntRoundTrip(id);
  }
}
