/** OasthAPIFetcher: the URL of an endpoint, the tuple-list format of the static
    endpoints (`(a,b,...),(c,d,...)`), and the flat JSON format of the simple
    JSON endpoints (`[{"k":"v",...},...]`). The HTTP request itself is a
    parameter `fetch` from URL to body. */
module ApiFetcher {
  import opened Results
  import opened Text
  import opened Collections
  import opened Records

  /** Oasth.API_URL. */
  const ApiUrl: string := "https://old.oasth.gr/el/api"
  /** The query every endpoint URL ends with. */
  const UrlTail: string := "/?a=1"

  // ---------------------------------------------------------------- URLs

  /** assembleEndpointURL: the endpoint name between the API root and the fixed query. */
  function AssembleEndpointUrl(endpoint: string): (url: string)
    ensures StartsWith(url, ApiUrl + "/") && EndsWith(url, UrlTail)
    ensures |url| == |ApiUrl| + 1 + |endpoint| + |UrlTail|
    ensures url[|ApiUrl| + 1..|url| - |UrlTail|] == endpoint
  {
    var url := ApiUrl + "/" + endpoint + UrlTail;
    assert url[|ApiUrl| + 1..|url| - |UrlTail|] == endpoint;
    url
  }

  /** The endpoint name an endpoint URL was built from, if it is one. */
  function EndpointOf(url: string): (r: Option<string>)
    ensures r.Some? ==> |r.value| + |ApiUrl| + 1 + |UrlTail| == |url|
  {
    var pre := ApiUrl + "/";
    if |pre| + |UrlTail| <= |url| && StartsWith(url, pre) && EndsWith(url, UrlTail) then
      Some(url[|pre|..|url| - |UrlTail|])
    else None
  }

  /** Reading the endpoint back out of its URL gives the name; so distinct names give distinct URLs. */
  lemma EndpointUrlRoundTrip(endpoint: string)
    ensures EndpointOf(AssembleEndpointUrl(endpoint)) == Some(endpoint)
    ensures forall other :: AssembleEndpointUrl(other) == AssembleEndpointUrl(endpoint) ==> other == endpoint
  {
    forall other | AssembleEndpointUrl(other) == AssembleEndpointUrl(endpoint)
      ensures other == endpoint
    {
      var url := AssembleEndpointUrl(endpoint);
      assert url[|ApiUrl| + 1..|url| - |UrlTail|] == other;
    }
  }

  /** The endpoint name of fetchFromSimpleJSONEndpoint: the parameter, when not blank, joins the name after a slash. */
  function CompleteEndpointName(endpoint: string, parameter: string): (r: string)
    ensures StartsWith(r, endpoint)
    ensures r == endpoint <==> IsBlank(parameter)
    ensures !IsBlank(parameter) ==> |r| == |endpoint| + 1 + |parameter| && r[|endpoint|] == '/' && r[|endpoint| + 1..] == parameter
  {
    if IsBlank(parameter) then endpoint
    else
      var r := endpoint + "/" + parameter;
      assert r[|endpoint| + 1..] == parameter;
      r
  }

  // ------------------------------------------------- tuple-list entries

  /** The separator between two entries of a tuple-list body. */
  const EntrySeparator: string := "),"

  /** One raw entry cleaned: the opening and closing parenthesis dropped, every
      double quote removed, then every ", " shortened to ",". */
  function CleanEntry(raw: string): (r: string)
    ensures '\"' !in r
  {
    var bare := RemoveSuffix(RemovePrefix(raw, "("), ")");
    var unquoted := Replace(bare, "\"", "");
    var r := Replace(unquoted, ", ", ",");
    assert '\"' !in ", ";
    r
  }

  /** getEntriesFromString: the body cut at every "),", each piece cleaned. */
  function GetEntries(body: string): (r: seq<string>)
    ensures |r| >= 1
    ensures forall i :: 0 <= i < |r| ==> '\"' !in r[i]
    ensures Free(body, EntrySeparator) ==> r == [CleanEntry(body)]
    ensures |r| == |Split(body, EntrySeparator)|
    ensures forall i :: 0 <= i < |r| ==> r[i] == CleanEntry(Split(body, EntrySeparator)[i])
  {
    var raw := Split(body, EntrySeparator);
    assert Free(body, EntrySeparator) ==> raw == [body] by {
      if Free(body, EntrySeparator) {
        SplitOfFree(body, EntrySeparator);
      }
    }
    seq(|raw|, i requires 0 <= i < |raw| => CleanEntry(raw[i]))
  }

  /** The tuple-list body the API sends for a non-empty list of entries: each in parentheses, separated by commas. */
  function EncodeEntries(entries: seq<string>): string
    requires |entries| >= 1
  {
    if |entries| == 1 then "(" + entries[0] + ")"
    else "(" + entries[0] + ")," + EncodeEntries(entries[1..])
  }

  /** An entry survives the trip through the tuple-list format: no quote, no ", ",
      no "),", and no closing parenthesis at its end. */
  predicate PlainEntry(e: string) {
    '\"' !in e && Free(e, ", ") && Free(e, EntrySeparator) && !EndsWith(e, ")")
  }

  /** The pieces the tuple-list body splits into: every entry after its "(", the last one with its ")". */
  function EntryPieces(entries: seq<string>): (r: seq<string>)
    requires |entries| >= 1
    ensures |r| == |entries|
  {
    if |entries| == 1 then ["(" + entries[0] + ")"]
    else ["(" + entries[0]] + EntryPieces(entries[1..])
  }

  lemma {:induction false} EntryPiecesJoin(entries: seq<string>)
    requires |entries| >= 1
    ensures Join(EntryPieces(entries), EntrySeparator) == EncodeEntries(entries)
    decreases |entries|
  {
    if |entries| > 1 {
      EntryPiecesJoin(entries[1..]);
      assert EntryPieces(entries)[1..] == EntryPieces(entries[1..]);
    }
  }

  /** "(" + e + tail holds no "),", for a tail of closing parentheses. */
  lemma WrappedFree(e: string, tail: string)
    requires Free(e, EntrySeparator)
    requires forall i :: 0 <= i < |tail| ==> tail[i] == ')'
    ensures Free("(" + e + tail, EntrySeparator)
  {
    var s := "(" + e + tail;
    forall j | 0 <= j <= |s|
      ensures !OccursAt(s, EntrySeparator, j)
    {
      if j + 2 <= |s| {
        if j == 0 {
          assert s[0] == '(';
        } else if j + 1 <= |e| {
          assert s[j..j + 2] == e[j - 1..j + 1];
          assert !OccursAt(e, EntrySeparator, j - 1);
        } else {
          assert s[j + 1] == tail[j - |e|];
        }
      }
    }
  }

  lemma CleanPiece(e: string, last: bool)
    requires PlainEntry(e)
    ensures CleanEntry(if last then "(" + e + ")" else "(" + e) == e
  {
    var raw := if last then "(" + e + ")" else "(" + e;
    var unopened := RemovePrefix(raw, "(");
    assert unopened == raw[1..];
    var bare := RemoveSuffix(unopened, ")");
    if last {
      assert unopened == e + ")";
      assert bare == e;
    } else {
      assert unopened == e;
    }
    FreeOfChar(e, '\"');
    assert Replace(e, "\"", "") == e;
  }

  /** The body cut at every "),": one entry per "),", plus one. */
  lemma EntryCount(body: string)
    ensures |GetEntries(body)| == Count(body, EntrySeparator) + 1
  {
    SplitCount(body, EntrySeparator);
  }

  /** A tuple-list body whose entries hold no "),"  is cut back into its
      pieces, so each extracted entry is the cleaned piece of its own entry. */
  lemma GetEntriesOfEncoded(entries: seq<string>)
    requires |entries| >= 1
    requires forall i :: 0 <= i < |entries| ==> Free(entries[i], EntrySeparator)
    ensures var r := GetEntries(EncodeEntries(entries));
      |r| == |entries| && forall i :: 0 <= i < |entries| ==> r[i] == CleanEntry(EntryPieces(entries)[i])
  {
    var pieces := EntryPieces(entries);
    EntryPiecesJoin(entries);
    forall i | 0 <= i < |pieces|
      ensures Separable(pieces[i], EntrySeparator)
    {
      PieceSeparable(entries, i);
    }
    SplitJoin(pieces, EntrySeparator);
  }

  /** Extracting the entries of the tuple-list body of `entries` gives them back. */
  lemma GetEntriesRoundTrip(entries: seq<string>)
    requires |entries| >= 1
    requires forall i :: 0 <= i < |entries| ==> PlainEntry(entries[i])
    ensures GetEntries(EncodeEntries(entries)) == entries
  {
    GetEntriesOfEncoded(entries);
    forall i | 0 <= i < |entries|
      ensures CleanEntry(EntryPieces(entries)[i]) == entries[i]
    {
      PieceShape(entries, i);
      CleanPiece(entries[i], i == |entries| - 1);
    }
  }

  lemma PieceSeparable(entries: seq<string>, i: nat)
    requires |entries| >= 1 && i < |entries| && Free(entries[i], EntrySeparator)
    ensures Separable(EntryPieces(entries)[i], EntrySeparator)
  {
    var piece := EntryPieces(entries)[i];
    PieceShape(entries, i);
    var tail := if i == |entries| - 1 then "))" else ")";
    WrappedFree(entries[i], tail);
    assert piece + EntrySeparator[..1] == "(" + entries[i] + tail;
  }

  lemma {:induction false} PieceShape(entries: seq<string>, i: nat)
    requires |entries| >= 1 && i < |entries|
    ensures EntryPieces(entries)[i] == if i == |entries| - 1 then "(" + entries[i] + ")" else "(" + entries[i]
    decreases |entries|
  {
    if |entries| > 1 && i > 0 {
      PieceShape(entries[1..], i - 1);
    }
  }

  /** A field between double quotes. */
  function Quoted(f: string): string {
    "\"" + f + "\""
  }

  /** A row as the API writes it inside parentheses: every field quoted, ", " between fields. */
  function QuotedRow(fields: seq<string>): string
    decreases |fields|
  {
    if |fields| == 0 then ""
    else if |fields| == 1 then Quoted(fields[0])
    else Quoted(fields[0]) + ", " + QuotedRow(fields[1..])
  }

  /** A field the quoted row carries: neither quote nor comma. */
  predicate QuotableField(f: string) {
    '\"' !in f && ',' !in f
  }

  /** Dropping the quotes of a quoted row leaves its fields separated by ", ". */
  lemma {:induction false} QuotedRowUnquoted(fields: seq<string>)
    requires forall i :: 0 <= i < |fields| ==> QuotableField(fields[i])
    ensures Without(QuotedRow(fields), '\"') == Join(fields, ", ")
    decreases |fields|
  {
    if |fields| > 0 {
      var f := fields[0];
      var tail := if |fields| == 1 then "" else ", " + QuotedRow(fields[1..]);
      assert QuotedRow(fields) == "" + ['\"'] + (f + ['\"'] + tail);
      WithoutAround("", f + ['\"'] + tail, '\"');
      WithoutAround(f, tail, '\"');
      if |fields| > 1 {
        QuotedRowUnquoted(fields[1..]);
        WithoutKeeps(", ", QuotedRow(fields[1..]), '\"');
      }
    }
  }

  /** A quoted row holds no "),", and ends with a quote unless it is empty. */
  lemma {:induction false} QuotedRowFree(fields: seq<string>)
    requires forall i :: 0 <= i < |fields| ==> QuotableField(fields[i])
    ensures Free(QuotedRow(fields), EntrySeparator)
    ensures |fields| > 0 ==> EndsWith(QuotedRow(fields), "\"")
    decreases |fields|
  {
    var q := QuotedRow(fields);
    if |fields| > 0 {
      var head := Quoted(fields[0]);
      assert ',' !in head;
      CountWithoutSecond(head, EntrySeparator);
      if |fields| > 1 {
        var rest := QuotedRow(fields[1..]);
        QuotedRowFree(fields[1..]);
        CountFree(rest, EntrySeparator);
        CountConcat(head, ", ", EntrySeparator);
        assert Count(", ", EntrySeparator) == 0;
        CountConcat(head + ", ", rest, EntrySeparator);
        assert (head + ", ")[|head + ", "| - 1] == ' ';
        assert q[|q| - 1..] == rest[|rest| - 1..];
      }
      CountFree(q, EntrySeparator);
    }
  }

  /** Cleaning the piece of a quoted row strips the parentheses and the quotes
      and shortens ", " to ",": the fields come out separated by bare commas. */
  lemma CleanQuoted(fields: seq<string>, last: bool)
    requires forall i :: 0 <= i < |fields| ==> QuotableField(fields[i])
    ensures CleanEntry(if last then "(" + QuotedRow(fields) + ")" else "(" + QuotedRow(fields)) == Join(fields, ",")
  {
    var q := QuotedRow(fields);
    QuotedPieceBare(fields, last);
    ReplaceByNothing(q, '\"');
    QuotedRowUnquoted(fields);
    SpacesShortened(fields);
  }

  /** Stripping the parentheses from the piece of a quoted row leaves the row. */
  lemma QuotedPieceBare(fields: seq<string>, last: bool)
    requires forall i :: 0 <= i < |fields| ==> QuotableField(fields[i])
    ensures RemoveSuffix(RemovePrefix(if last then "(" + QuotedRow(fields) + ")" else "(" + QuotedRow(fields), "("), ")")
            == QuotedRow(fields)
  {
    var q := QuotedRow(fields);
    QuotedRowFree(fields);
    assert !EndsWith(q, ")") by {
      if |fields| > 0 {
        assert q[|q| - 1..] == "\"";
      }
    }
    StripParens(q, last);
  }

  /** The opening parenthesis and, when the piece has one, the closing one come off. */
  lemma StripParens(q: string, last: bool)
    requires last || !EndsWith(q, ")")
    ensures RemoveSuffix(RemovePrefix(if last then "(" + q + ")" else "(" + q, "("), ")") == q
  {
    var raw := if last then "(" + q + ")" else "(" + q;
    var unopened := RemovePrefix(raw, "(");
    assert unopened == raw[1..];
    if last {
      assert unopened == q + ")";
    } else {
      assert unopened == q;
    }
  }

  /** Comma-free fields separated by ", " come out separated by "," once ", " is replaced. */
  lemma SpacesShortened(fields: seq<string>)
    requires forall i :: 0 <= i < |fields| ==> ',' !in fields[i]
    ensures Replace(Join(fields, ", "), ", ", ",") == Join(fields, ",")
  {
    if |fields| > 0 {
      forall k | 0 <= k < |fields|
        ensures Separable(fields[k], ", ")
      {
        SeparableWithoutLead(fields[k], ", ");
      }
      SplitJoin(fields, ", ");
    } else {
      assert Free("", ", ");
    }
  }

  /** The tuple-list body of quoted rows. */
  function QuotedRows(rows: seq<seq<string>>): (r: seq<string>)
    ensures |r| == |rows|
  {
    seq(|rows|, i requires 0 <= i < |rows| => QuotedRow(rows[i]))
  }

  /** Rows written the way the API writes them, each field quoted and ", "
      between fields, are extracted as one entry per row, in order, with the
      fields separated by bare commas; splitting an entry at commas then gives
      the row's fields back. */
  lemma GetEntriesQuotedRoundTrip(rows: seq<seq<string>>)
    requires |rows| >= 1
    requires forall i, j :: 0 <= i < |rows| && 0 <= j < |rows[i]| ==> QuotableField(rows[i][j])
    ensures var r := GetEntries(EncodeEntries(QuotedRows(rows)));
      && |r| == |rows|
      && (forall i :: 0 <= i < |rows| ==> r[i] == Join(rows[i], ","))
      && (forall i :: 0 <= i < |rows| && |rows[i]| > 0 ==> Fields(r[i]) == rows[i])
  {
    var entries := QuotedRows(rows);
    forall i | 0 <= i < |entries|
      ensures Free(entries[i], EntrySeparator)
    {
      QuotedRowFree(rows[i]);
    }
    GetEntriesOfEncoded(entries);
    forall i | 0 <= i < |rows|
      ensures CleanEntry(EntryPieces(entries)[i]) == Join(rows[i], ",")
      ensures |rows[i]| > 0 ==> Fields(Join(rows[i], ",")) == rows[i]
    {
      PieceShape(entries, i);
      CleanQuoted(rows[i], i == |entries| - 1);
      if |rows[i]| > 0 {
        FieldsOfJoin(rows[i]);
      }
    }
  }

  // ---------------------------------------------------- empty responses

  /** The bodies endpoints send for "no data": `null` and `[]`. */
  const EmptyResponses: seq<string> := ["null", "[]"]

  /** The check of responseContainsData: false at the first marker the body contains. */
  function ContainsAny(body: string, markers: seq<string>): (r: bool)
    requires forall i :: 0 <= i < |markers| ==> |markers[i]| > 0
    ensures r <==> exists i :: 0 <= i < |markers| && !Free(body, markers[i])
  {
    if |markers| == 0 then false
    else
      ContainsIffOccurs(body, markers[0]);
      if Contains(body, markers[0]) then true
      else
        var r := ContainsAny(body, markers[1..]);
        assert r <==> exists i :: 0 <= i < |markers| && !Free(body, markers[i]) by {
          if r {
            var i :| 0 <= i < |markers[1..]| && !Free(body, markers[1..][i]);
            assert !Free(body, markers[i + 1]);
          }
        }
        r
  }

  /** responseContainsData: the body has data unless it contains `null` or `[]`
      anywhere, or is blank. */
  function ResponseContainsData(body: string): (r: bool)
    ensures r <==> Free(body, "null") && Free(body, "[]") && !IsBlank(body)
  {
    assert EmptyResponses[0] == "null" && EmptyResponses[1] == "[]";
    !ContainsAny(body, EmptyResponses) && !IsBlank(body)
  }

  /** The two no-data bodies and a blank body carry no data; a body that
      mentions null anywhere is taken for no data too. */
  lemma NoDataExamples()
    ensures !ResponseContainsData("null") && !ResponseContainsData("[]") && !ResponseContainsData(" ")
    ensures !ResponseContainsData("[{\"a\":\"null\"}]")
  {
    assert OccursAt("null", "null", 0);
    assert OccursAt("[]", "[]", 0);
    assert OccursAt("[{\"a\":\"null\"}]", "null", 7);
  }

  // ------------------------------------------------------- simple JSON

  /** One key-value pair of a JSON object, as text. */
  datatype Property = Property(key: string, value: string)

  function KeyOf(p: Property): string {
    p.key
  }

  /** What separates a key from its value: a quote, a colon and a quote,
      so that colons inside times do not split a value. */
  const PairSeparator: string := "\":\""

  /** `replace("\"", "")`. */
  function StripQuotes(s: string): (r: string)
    ensures '\"' !in r
    ensures '\"' !in s ==> r == s
  {
    FreeOfChar(s, '\"');
    Replace(s, "\"", "")
  }

  /** One property text: split at the quoted colon, quotes dropped; kept only when it splits into exactly two. */
  function ParseProperty(p: string): (r: Option<Property>)
    ensures r.Some? <==> |Split(p, PairSeparator)| == 2
    ensures r.Some? ==> '\"' !in r.value.key && '\"' !in r.value.value
  {
    var pair := Split(p, PairSeparator);
    if |pair| == 2 then Some(Property(StripQuotes(pair[0]), StripQuotes(pair[1]))) else None
  }

  /** The properties that parse, in order. */
  function ParseProperties(ps: seq<string>): (r: seq<Property>)
    ensures |r| <= |ps|
    ensures forall x :: x in r ==> '\"' !in x.key && '\"' !in x.value
    ensures (forall i :: 0 <= i < |ps| ==> ParseProperty(ps[i]).None?) ==> r == []
  {
    var r := MapPresent(ps, ParseProperty);
    assert |r| > 0 ==> r[0] in r;
    r
  }

  /** A HashMap filled with `props` in order: every key present, the last value of a key kept. */
  function ToMap(props: seq<Property>): (m: map<string, string>)
    ensures forall k :: k in m <==> exists i :: 0 <= i < |props| && props[i].key == k
    ensures forall i :: 0 <= i < |props| && IsLastWithKey(props, KeyOf, i) ==> m[props[i].key] == props[i].value
  {
    var index := IndexBy(props, KeyOf);
    map k | k in index :: index[k].value
  }

  /** Neither a key nor a value of `m` holds a double quote. */
  predicate QuoteFree(m: map<string, string>) {
    forall k :: k in m ==> '\"' !in k && '\"' !in m[k]
  }

  /** The map of one object's text: its comma-separated properties. */
  function ParseObject(text: string): (m: map<string, string>)
    ensures QuoteFree(m)
  {
    var props := ParseProperties(Split(text, ","));
    var m := ToMap(props);
    assert QuoteFree(m) by {
      forall k | k in m
        ensures '\"' !in k && '\"' !in m[k]
      {
        var index := IndexBy(props, KeyOf);
        assert index[k] in props;
      }
    }
    m
  }

  /** Each object text after the split at "}": a leading "," and then a leading "{" dropped. */
  function ObjectText(chunk: string): string {
    RemovePrefix(RemovePrefix(chunk, ","), "{")
  }

  /** The object of one text, nothing for a blank one. */
  function ObjectOf(text: string): Option<map<string, string>> {
    if IsBlank(text) then None else Some(ParseObject(text))
  }

  /** The objects of the non-blank texts, in order. */
  function ParseObjects(texts: seq<string>): (r: seq<map<string, string>>)
    ensures |r| <= |texts|
    ensures (forall i :: 0 <= i < |texts| ==> !IsBlank(texts[i])) ==> |r| == |texts|
    ensures forall i :: 0 <= i < |r| ==> QuoteFree(r[i])
  {
    var r := MapPresent(texts, ObjectOf);
    ObjectsAllPresent(texts);
    ObjectsQuoteFree(texts, r);
    r
  }

  lemma ObjectsAllPresent(texts: seq<string>)
    ensures (forall i :: 0 <= i < |texts| ==> !IsBlank(texts[i])) ==> |MapPresent(texts, ObjectOf)| == |texts|
  {
    if forall i :: 0 <= i < |texts| ==> !IsBlank(texts[i]) {
      MapPresentAll(texts, seq(|texts|, i requires 0 <= i < |texts| => ParseObject(texts[i])), ObjectOf);
    }
  }

  lemma ObjectsQuoteFree(texts: seq<string>, r: seq<map<string, string>>)
    requires r == MapPresent(texts, ObjectOf)
    ensures forall i :: 0 <= i < |r| ==> QuoteFree(r[i])
  {
    forall i | 0 <= i < |r|
      ensures QuoteFree(r[i])
    {
      assert r[i] in r;
      var j :| 0 <= j < |texts| && ObjectOf(texts[j]) == Some(r[i]);
    }
  }

  /** formatApiJson: the brackets dropped, the text cut at every "}", each
      non-blank object text read as comma-separated `"key":"value"` pairs. */
  function FormatApiJson(body: string): (r: seq<map<string, string>>)
    ensures forall i :: 0 <= i < |r| ==> QuoteFree(r[i])
    ensures |r| <= |Split(RemoveSurrounding(body, "[", "]"), "}")|
  {
    var chunks := Split(RemoveSurrounding(body, "[", "]"), "}");
    ParseObjects(seq(|chunks|, i requires 0 <= i < |chunks| => ObjectText(chunks[i])))
  }

  // ------------------------------------------- simple JSON, the other way

  function EncodeProperty(p: Property): string {
    "\"" + p.key + PairSeparator + p.value + "\""
  }

  function EncodeProperties(props: seq<Property>): (r: seq<string>)
    ensures |r| == |props|
  {
    if |props| == 0 then [] else [EncodeProperty(props[0])] + EncodeProperties(props[1..])
  }

  /** `{"k1":"v1","k2":"v2",...}`. */
  function EncodeObject(props: seq<Property>): string {
    "{" + Join(EncodeProperties(props), ",") + "}"
  }

  function EncodeObjects(objects: seq<seq<Property>>): (r: seq<string>)
    ensures |r| == |objects|
  {
    if |objects| == 0 then [] else [EncodeObject(objects[0])] + EncodeObjects(objects[1..])
  }

  /** `[{...},{...},...]`: the body a simple JSON endpoint sends for a list of objects. */
  function EncodeArray(objects: seq<seq<Property>>): string {
    "[" + Join(EncodeObjects(objects), ",") + "]"
  }

  function ToMaps(objects: seq<seq<Property>>): (r: seq<map<string, string>>)
    ensures |r| == |objects|
  {
    if |objects| == 0 then [] else [ToMap(objects[0])] + ToMaps(objects[1..])
  }

  /** Text the flat format can carry: no quote, comma or closing brace. */
  predicate Plain(s: string) {
    '\"' !in s && ',' !in s && '}' !in s
  }

  /** A property the flat format carries: plain key and value, and a key other
      than a lone colon (which would make `":":"` look like a separator). */
  predicate PlainProperty(p: Property) {
    Plain(p.key) && Plain(p.value) && p.key != ":"
  }

  /** Objects the flat format carries: each non-empty, made of plain properties. */
  predicate PlainObjects(objects: seq<seq<Property>>) {
    forall i :: 0 <= i < |objects| ==>
      |objects[i]| > 0 && forall j :: 0 <= j < |objects[i]| ==> PlainProperty(objects[i][j])
  }

  /** Reading a JSON array written from plain objects gives each object's map, in order. */
  lemma FormatApiJsonRoundTrip(objects: seq<seq<Property>>)
    requires PlainObjects(objects)
    ensures FormatApiJson(EncodeArray(objects)) == ToMaps(objects)
  {
    var chunks := Split(RemoveSurrounding(EncodeArray(objects), "[", "]"), "}");
    assert chunks == ChunksFrom("", objects) by {
      ArrayContents(objects);
      SplitObjects(objects);
    }
    var texts := seq(|chunks|, i requires 0 <= i < |chunks| => ObjectText(chunks[i]));
    forall i | 0 <= i < |texts|
      ensures texts[i] == if i < |objects| then ObjectBody(objects[i]) else ""
    {
      ChunkText(objects, i);
    }
    ParseObjectsOfBodies(objects, texts);
  }

  /** Dropping the brackets of an encoded array leaves the objects joined by commas. */
  lemma ArrayContents(objects: seq<seq<Property>>)
    ensures RemoveSurrounding(EncodeArray(objects), "[", "]") == Join(EncodeObjects(objects), ",")
  {
    var data := Join(EncodeObjects(objects), ",");
    var body := "[" + data + "]";
    assert body[..1] == "[" && body[|body| - 1..] == "]";
    assert "[" + data + "]" == body;
  }

  /** Plain objects joined by commas split at "}" into ChunksFrom("", objects). */
  lemma SplitObjects(objects: seq<seq<Property>>)
    requires PlainObjects(objects)
    ensures Split(Join(EncodeObjects(objects), ","), "}") == ChunksFrom("", objects)
  {
    var chunks := ChunksFrom("", objects);
    ChunksJoin("", objects);
    assert Join(chunks, "}") == Join(EncodeObjects(objects), ",");
    forall i | 0 <= i < |chunks|
      ensures Separable(chunks[i], "}")
    {
      ChunkSeparable(objects, i);
    }
    SplitJoin(chunks, "}");
  }

  /** No chunk of plain objects holds a "}". */
  lemma ChunkSeparable(objects: seq<seq<Property>>, i: nat)
    requires PlainObjects(objects) && i < |ChunksFrom("", objects)|
    ensures Separable(ChunksFrom("", objects)[i], "}")
  {
    var chunk := ChunksFrom("", objects)[i];
    ChunkShape("", objects, i);
    if i < |objects| {
      ObjectBodyPlain(objects[i]);
      assert '}' !in chunk;
    }
    SeparableWithoutLead(chunk, "}");
  }

  /** The object text of each chunk is the object's body, and the empty rest stays empty. */
  lemma ChunkText(objects: seq<seq<Property>>, i: nat)
    requires PlainObjects(objects) && i <= |objects|
    ensures ObjectText(ChunksFrom("", objects)[i]) == if i < |objects| then ObjectBody(objects[i]) else ""
  {
    ChunkShape("", objects, i);
    if i < |objects| {
      ObjectBodyPlain(objects[i]);
      TextOfChunk(if i == 0 then "" else ",", ObjectBody(objects[i]));
    }
  }

  lemma TextOfChunk(lead: string, body: string)
    requires lead == "" || lead == ","
    requires |body| > 0 && body[0] == '\"'
    ensures ObjectText(lead + "{" + body) == body
  {
    var chunk := lead + "{" + body;
    assert RemovePrefix(chunk, ",") == "{" + body by {
      if lead == "" {
        assert chunk[0] == '{';
      } else {
        assert chunk[1..] == "{" + body;
      }
    }
    assert ("{" + body)[1..] == body;
  }

  /** The text between an object's braces. */
  function ObjectBody(props: seq<Property>): string {
    Join(EncodeProperties(props), ",")
  }

  /** What splitting at "}" cuts `lead` followed by the joined objects into: each
      object's text after `lead` (first) or "," (later) and "{", then the empty rest. */
  function ChunksFrom(lead: string, objects: seq<seq<Property>>): (r: seq<string>)
    ensures |r| == |objects| + 1
    decreases |objects|
  {
    if |objects| == 0 then [""]
    else [lead + "{" + ObjectBody(objects[0])] + ChunksFrom(",", objects[1..])
  }

  lemma {:induction false} ChunkShape(lead: string, objects: seq<seq<Property>>, i: nat)
    requires i <= |objects|
    ensures ChunksFrom(lead, objects)[i] ==
      if i == |objects| then "" else (if i == 0 then lead else ",") + "{" + ObjectBody(objects[i])
    decreases |objects|
  {
    if |objects| > 0 && i > 0 {
      ChunkShape(",", objects[1..], i - 1);
    }
  }

  lemma {:induction false} ChunksJoin(lead: string, objects: seq<seq<Property>>)
    ensures Join(ChunksFrom(lead, objects), "}") ==
      if |objects| == 0 then "" else lead + Join(EncodeObjects(objects), ",")
    decreases |objects|
  {
    if |objects| > 0 {
      ChunksJoin(",", objects[1..]);
      var chunks, rest := ChunksFrom(lead, objects), ChunksFrom(",", objects[1..]);
      var first, eo := lead + "{" + ObjectBody(objects[0]), EncodeObjects(objects);
      assert chunks[0] == first && chunks[1..] == rest;
      assert Join(chunks, "}") == first + "}" + Join(rest, "}");
      assert eo[0] == EncodeObject(objects[0]) && eo[1..] == EncodeObjects(objects[1..]);
      assert first + "}" == lead + eo[0];
      if |objects| == 1 {
        assert Join(rest, "}") == "" && Join(eo, ",") == eo[0];
        assert Join(chunks, "}") == lead + eo[0];
      } else {
        assert Join(rest, "}") == "," + Join(eo[1..], ",");
        assert Join(eo, ",") == eo[0] + "," + Join(eo[1..], ",");
        Regroup(lead, eo[0], ",", Join(eo[1..], ","));
      }
    }
  }

  /** An object body of plain properties holds no "}" and starts with a quote. */
  lemma ObjectBodyPlain(props: seq<Property>)
    requires |props| > 0 && forall j :: 0 <= j < |props| ==> PlainProperty(props[j])
    ensures '}' !in ObjectBody(props)
    ensures |ObjectBody(props)| > 0 && ObjectBody(props)[0] == '\"'
  {
    var parts := EncodeProperties(props);
    if '}' in ObjectBody(props) {
      JoinChars(parts, ",", '}');
      var k :| 0 <= k < |parts| && '}' in parts[k];
      PropertyShape(props, k);
    }
    PropertyShape(props, 0);
    assert |parts| == 1 || ObjectBody(props) == parts[0] + "," + Join(parts[1..], ",");
  }

  lemma {:induction false} PropertyShape(props: seq<Property>, k: nat)
    requires k < |props|
    ensures EncodeProperties(props)[k] == EncodeProperty(props[k])
    decreases |props|
  {
    if k > 0 {
      PropertyShape(props[1..], k - 1);
    }
  }

  lemma {:induction false} ParseObjectsOfBodies(objects: seq<seq<Property>>, texts: seq<string>)
    requires PlainObjects(objects)
    requires |texts| == |objects| + 1
    requires forall i :: 0 <= i < |texts| ==> texts[i] == if i < |objects| then ObjectBody(objects[i]) else ""
    ensures ParseObjects(texts) == ToMaps(objects)
    decreases |objects|
  {
    if |objects| == 0 {
      assert IsBlank(texts[0]);
    } else {
      ObjectBodyPlain(objects[0]);
      assert !IsBlank(texts[0]) by {
        assert !IsWhitespace(texts[0][0]);
      }
      ParseObjectOfBody(objects[0]);
      ParseObjectsOfBodies(objects[1..], texts[1..]);
    }
  }

  /** The map read back from a plain object's body is the map of its properties. */
  lemma ParseObjectOfBody(props: seq<Property>)
    requires |props| > 0 && forall j :: 0 <= j < |props| ==> PlainProperty(props[j])
    ensures ParseObject(ObjectBody(props)) == ToMap(props)
  {
    var parts := EncodeProperties(props);
    forall k | 0 <= k < |parts|
      ensures Separable(parts[k], ",")
    {
      PropertyShape(props, k);
      SeparableWithoutLead(parts[k], ",");
    }
    SplitJoin(parts, ",");
    ParsePropertiesRoundTrip(props);
  }

  lemma ParsePropertiesRoundTrip(props: seq<Property>)
    requires forall j :: 0 <= j < |props| ==> PlainProperty(props[j])
    ensures ParseProperties(EncodeProperties(props)) == props
  {
    var ps := EncodeProperties(props);
    forall j | 0 <= j < |props|
      ensures ParseProperty(ps[j]) == Some(props[j])
    {
      PropertyShape(props, j);
      ParsePropertyRoundTrip(props[j]);
    }
    MapPresentAll(ps, props, ParseProperty);
  }

  /** One plain property reads back as itself. */
  lemma ParsePropertyRoundTrip(p: Property)
    requires PlainProperty(p)
    ensures ParseProperty(EncodeProperty(p)) == Some(p)
  {
    var first, second := "\"" + p.key, p.value + "\"";
    assert EncodeProperty(p) == Join([first, second], PairSeparator);
    KeySeparable(p.key);
    ValueSeparable(p.value);
    SplitJoin([first, second], PairSeparator);
    QuotesAround(p.key);
    QuotesAround(p.value);
  }

  /** Stripping the quote in front of or behind quote-free text gives the text. */
  lemma QuotesAround(s: string)
    requires '\"' !in s
    ensures StripQuotes("\"" + s) == s && StripQuotes(s + "\"") == s
  {
    SeparableWithoutLead("", "\"");
    SeparableWithoutLead(s, "\"");
    assert Join(["", s], "\"") == "\"" + s;
    SplitJoin(["", s], "\"");
    assert Join([s, ""], "\"") == s + "\"";
    SplitJoin([s, ""], "\"");
    assert Join(["", s], "") == s && Join([s, ""], "") == s;
    assert Replace("\"" + s, "\"", "") == s;
    assert Replace(s + "\"", "\"", "") == s;
  }

  lemma KeySeparable(k: string)
    requires '\"' !in k && k != ":"
    ensures Separable("\"" + k, PairSeparator)
  {
    var t := "\"" + k + PairSeparator[..2];
    assert t == "\"" + k + "\":";
    forall j | 0 <= j <= |t|
      ensures !OccursAt(t, PairSeparator, j)
    {
      if j + 3 <= |t| {
        if j == 0 {
          if |k| == 0 {
            assert t[1] == '\"';
          } else if |k| == 1 {
            assert k == [k[0]] && t[1] == k[0];
          } else {
            assert t[2] == k[1];
          }
        } else {
          assert t[j] == k[j - 1];
        }
      }
    }
  }

  lemma ValueSeparable(v: string)
    requires '\"' !in v
    ensures Separable(v + "\"", PairSeparator)
  {
    var t := v + "\"" + PairSeparator[..2];
    assert t == v + "\"\":";
    forall j | 0 <= j <= |t|
      ensures !OccursAt(t, PairSeparator, j)
    {
      if j + 3 <= |t| {
        if j < |v| {
          assert t[j] == v[j];
        } else {
          assert t[j + 1] == '\"';
        }
      }
    }
  }

  // ------------------------------------------------------------ fetching

  /** fetchEntriesFromEndpoint: the entries of the body fetched from the endpoint's URL. */
  function FetchEntriesFromEndpoint(endpoint: string, fetch: string -> Result<string>): (r: Result<seq<string>>)
    ensures r.Err? <==> fetch(AssembleEndpointUrl(endpoint)).Err?
    ensures r.Ok? ==> r.value == GetEntries(fetch(AssembleEndpointUrl(endpoint)).value)
  {
    var body :- fetch(AssembleEndpointUrl(endpoint));
    Ok(GetEntries(body))
  }

  /** fetchFromSimpleJSONEndpoint: the objects of the body, or none at all when the body signals no data. */
  function FetchFromSimpleJsonEndpoint(endpoint: string, parameter: string, fetch: string -> Result<string>)
    : (r: Result<seq<map<string, string>>>)
    ensures r.Err? <==> fetch(AssembleEndpointUrl(CompleteEndpointName(endpoint, parameter))).Err?
    ensures r.Ok? ==>
      var body := fetch(AssembleEndpointUrl(CompleteEndpointName(endpoint, parameter))).value;
      r.value == if ResponseContainsData(body) then FormatApiJson(body) else []
  {
    var body :- fetch(AssembleEndpointUrl(CompleteEndpointName(endpoint, parameter)));
    if ResponseContainsData(body) then Ok(FormatApiJson(body)) else Ok([])
  }
}
