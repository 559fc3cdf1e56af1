/** Positional access to the fields of one entry, as every builder does it:
    `val values = entry.split(",")`, then `values[i]` and `values[i].toInt()`. */
module Records {
  import opened Results
  import opened Text
  import opened Numbers

  /** entry.split(","): every field, empty ones included. */
  function Fields(entry: string): (v: seq<string>)
    ensures |v| >= 1
    ensures Join(v, ",") == entry
    ensures forall i :: 0 <= i < |v| ==> ',' !in v[i]
  {
    var v := Split(entry, ",");
    assert forall i :: 0 <= i < |v| ==> ',' !in v[i] by {
      forall i | 0 <= i < |v|
        ensures ',' !in v[i]
      {
        FreeOfChar(v[i], ',');
      }
    }
    v
  }

  /** values[i], which throws IndexOutOfBoundsException past the end. */
  function Field(v: seq<string>, i: nat): (r: Result<string>)
    ensures r.Ok? <==> i < |v|
    ensures r.Ok? ==> r.value == v[i]
    ensures r.Err? ==> r.error == IndexOutOfBounds(i, |v|)
  {
    if i < |v| then Ok(v[i]) else Err(IndexOutOfBounds(i, |v|))
  }

  /** values[i].toInt(). */
  function IntField(v: seq<string>, i: nat): (r: Result<int>)
    ensures r.Ok? <==> i < |v| && ToInt(v[i]).Ok?
    ensures r.Ok? ==> ToInt(v[i]) == Ok(r.value) && IsInt32(r.value)
    ensures i >= |v| ==> r == Err(IndexOutOfBounds(i, |v|))
    ensures i < |v| && ToInt(v[i]).Err? ==> r == Err(NumberFormat(v[i]))
  {
    var text :- Field(v, i);
    ToInt(text)
  }

  /** Splitting fields joined with commas gives them back, when none holds a comma. */
  lemma FieldsOfJoin(v: seq<string>)
    requires |v| >= 1
    requires forall i :: 0 <= i < |v| ==> ',' !in v[i]
    ensures Fields(Join(v, ",")) == v
  {
    forall i | 0 <= i < |v|
      ensures Separable(v[i], ",")
    {
      SeparableWithoutLead(v[i], ",");
    }
    SplitJoin(v, ",");
  }

  /** The decimal text of a number holds no comma, so it is a field of its own. */
  lemma IntTextIsField(n: int)
    ensures ',' !in IntToString(n)
  {
    IntTextChars(n, ',');
  }
}
