/**
  Form data as the request body delivers it, and `getFromForm`
  (app/tools/getFromForm.ts), which collects the named fields into a record.
*/
module Forms {
  import opened Wrappers

  /** One value of a multipart/urlencoded form: text, or an uploaded file. */
  datatype FormEntry = Text(text: string) | File(fileName: string)

  /** The result of `formData.get(name)`: an entry, or `null` (None). */
  type FormValue = Option<FormEntry>

  /** A submitted form: its (name, value) entries in submission order. */
  type FormData = seq<(string, FormEntry)>

  /** `formData.get(name)`: the value of the first entry with that name, null if none. */
  function Get(form: FormData, name: string): (r: FormValue)
    ensures r.None? <==> forall i :: 0 <= i < |form| ==> form[i].0 != name
    ensures r.Some? ==>
      exists i :: 0 <= i < |form| && form[i] == (name, r.value) &&
        forall j :: 0 <= j < i ==> form[j].0 != name
  {
    if form == [] then None
    else if form[0].0 == name then Some(form[0].1)
    else
      var r := Get(form[1..], name);
      assert forall i :: 1 <= i < |form| ==> form[i] == form[1..][i - 1];
      r
  }

  /** A value turned into text the way a response header does it (`String(v)`). */
  function Stringify(v: FormValue): (s: string)
    ensures v.Some? && v.value.Text? ==> s == v.value.text
  {
    match v
    case Some(Text(t)) => t
    case Some(File(_)) => "[object File]"
    case None => "null"
  }

  /** What a record returned by `getFromForm(form, ...names)` must be. */
  ghost predicate IsFieldRecord(form: FormData, names: seq<string>, record: map<string, FormValue>)
  {
    && record.Keys == (set n | n in names)
    && forall n :: n in record ==> record[n] == Get(form, n)
  }

  /**
    `getFromForm(formData, ...fieldNames)`: the `reduce` writes `formData.get(field)`
    into the accumulator record once per name, in order. The record has exactly the
    listed names as keys, and each key holds what `formData.get` returns for it
    (null for a missing field).
  */
  method GetFromForm(form: FormData, fieldNames: seq<string>) returns (record: map<string, FormValue>)
    ensures record.Keys == set n | n in fieldNames
    ensures forall n :: n in record ==> record[n] == Get(form, n)
    ensures IsFieldRecord(form, fieldNames, record)
  {
    record := map[];
    for i := 0 to |fieldNames|
      invariant record.Keys == set n | n in fieldNames[..i]
      invariant forall n :: n in record ==> record[n] == Get(form, n)
    {
      assert fieldNames[..i + 1] == fieldNames[..i] + [fieldNames[i]];
      record := record[fieldNames[i] := Get(form, fieldNames[i])];
    }
    assert fieldNames[..|fieldNames|] == fieldNames;
  }

  /** The names alone determine the record: two calls with the same names agree. */
  lemma FieldRecordUnique(form: FormData, names: seq<string>, r1: map<string, FormValue>, r2: map<string, FormValue>)
    requires IsFieldRecord(form, names, r1) && IsFieldRecord(form, names, r2)
    ensures r1 == r2
  {
  }

  /** Repeating a field name writes the same value again, so the record is unchanged. */
  lemma RepeatedFieldName(form: FormData, names: seq<string>, n: string, record: map<string, FormValue>)
    requires n in names
    ensures IsFieldRecord(form, names + [n], record) <==> IsFieldRecord(form, names, record)
  {
    assert (set m | m in names + [n]) == (set m | m in names);
  }

  /** With no field names the record is empty. */
  lemma NoFieldNames(form: FormData, record: map<string, FormValue>)
    requires IsFieldRecord(form, [], record)
    ensures record == map[]
  {
  }
}
