/**
  `queryParser` (app/tools/queryParser.ts): folds the search parameters of a URL
  into a record in which a later value for a key overwrites an earlier one. The
  URL is parsed by the platform; the model starts from the list of entries.

  The accumulator is a plain object literal, so `Object.assign` sets each key
  with an ordinary property assignment. For the key `__proto__` that assignment
  calls the setter inherited from `Object.prototype`, which ignores a string:
  that key never becomes a key of the record.
*/
module Query {

  /** The declared value type of the record, `string | number`. */
  datatype QueryValue = Text(text: string) | Number(n: real)

  /** One search parameter, `[key, value]`. */
  type Entry = (string, string)

  /** Entry `i` is the last one with its key. */
  ghost predicate IsLast(entries: seq<Entry>, i: int)
  {
    0 <= i < |entries| && forall j :: i < j < |entries| ==> entries[j].0 != entries[i].0
  }

  /** The key whose assignment reaches the prototype setter instead of the record. */
  const ProtoKey := "__proto__"

  /**
    The record holds exactly the keys of the entries other than `__proto__`,
    each with its last value.
  */
  ghost predicate LastWins(entries: seq<Entry>, record: map<string, QueryValue>)
  {
    && record.Keys == (set e | e in entries :: e.0) - {ProtoKey}
    && forall i :: IsLast(entries, i) && entries[i].0 != ProtoKey ==> record[entries[i].0] == Text(entries[i].1)
  }

  /** The record after `Object.assign(record, { [e.0]: e.1 })` on a plain object. */
  function Assign(record: map<string, QueryValue>, e: Entry): map<string, QueryValue>
  {
    if e.0 == ProtoKey then record else record[e.0 := Text(e.1)]
  }

  /** `queryParser`: one `Object.assign(pv, { [key]: val })` per entry, in order. */
  method QueryParser(entries: seq<Entry>) returns (record: map<string, QueryValue>)
    ensures LastWins(entries, record)
  {
    record := map[];
    for i := 0 to |entries|
      invariant LastWins(entries[..i], record)
    {
      assert entries[..i + 1] == entries[..i] + [entries[i]];
      LastWinsStep(entries[..i], record, entries[i]);
      record := Assign(record, entries[i]);
    }
    assert entries[..|entries|] == entries;
  }

  /**
    One more entry overwrites (or adds) its key, or changes nothing when the key
    is `__proto__`, and keeps the invariant.
  */
  lemma LastWinsStep(entries: seq<Entry>, record: map<string, QueryValue>, e: Entry)
    requires LastWins(entries, record)
    ensures LastWins(entries + [e], Assign(record, e))
  {
    var after := entries + [e];
    var r := Assign(record, e);
    assert r.Keys == (set x | x in after :: x.0) - {ProtoKey} by {
      assert (set x | x in after :: x.0) == (set x | x in entries :: x.0) + {e.0};
    }
    forall j | IsLast(after, j) && after[j].0 != ProtoKey
      ensures r[after[j].0] == Text(after[j].1)
    {
      if j < |entries| {
        assert after[|entries|].0 != after[j].0;
        assert after[j] == entries[j];
        assert IsLast(entries, j) by {
          forall k | j < k < |entries| ensures entries[k].0 != entries[j].0 {
            assert after[k] == entries[k];
          }
        }
      }
    }
  }

  /** `?__proto__=x&a=1` gives the record `{a: "1"}`. */
  lemma ProtoKeyDropped(record: map<string, QueryValue>)
    requires LastWins([(ProtoKey, "x"), ("a", "1")], record)
    ensures record == map["a" := Text("1")]
  {
    var entries := [(ProtoKey, "x"), ("a", "1")];
    assert (set e | e in entries :: e.0) == {ProtoKey, "a"};
    assert IsLast(entries, 1);
  }

  /** The index of the last entry with key `k`, which must occur. */
  function LastIndex(entries: seq<Entry>, k: string): (i: int)
    requires k in (set e | e in entries :: e.0)
    ensures IsLast(entries, i) && entries[i].0 == k
  {
    var n := |entries| - 1;
    if entries[n].0 == k then n
    else
      assert entries == entries[..n] + [entries[n]];
      assert k in (set e | e in entries[..n] :: e.0);
      LastIndex(entries[..n], k)
  }

  /** The entries determine the record: every result of `queryParser` on them is the same. */
  lemma {:induction false} LastWinsUnique(entries: seq<Entry>, r1: map<string, QueryValue>, r2: map<string, QueryValue>)
    requires LastWins(entries, r1) && LastWins(entries, r2)
    ensures r1 == r2
  {
    forall k | k in r1 ensures r1[k] == r2[k] {
      var i := LastIndex(entries, k);
    }
  }

  /**
    Every value of the record is text copied verbatim from an entry with that key;
    none is ever a number, whatever the declared type allows.
  */
  lemma {:induction false} LastWinsValuesVerbatim(entries: seq<Entry>, record: map<string, QueryValue>)
    requires LastWins(entries, record)
    ensures forall k :: k in record ==> record[k].Text? && (k, record[k].text) in entries
  {
    forall k | k in record ensures record[k].Text? && (k, record[k].text) in entries {
      var i := LastIndex(entries, k);
      assert entries[i] == (k, record[k].text);
    }
  }

  /** With no entries the record is empty. */
  lemma NoEntries(record: map<string, QueryValue>)
    requires LastWins([], record)
    ensures record == map[]
  {
  }
}
