/** JSON values, and the in-place updates of the value builder. */
module JsonValue {
  import opened Wrappers
  import opened JsonNumber

  /** Object entries keep their order; nothing in the type makes keys distinct. */
  datatype Value =
    | Null
    | Bool(b: bool)
    | Num(number: Number)
    | Str(s: string)
    | Array(items: seq<Value>)
    | Object(entries: seq<Entry>)

  datatype Entry = Entry(key: string, value: Value)

  predicate HasKey(entries: seq<Entry>, key: string) {
    exists i :: 0 <= i < |entries| && entries[i].key == key
  }

  predicate DistinctKeys(entries: seq<Entry>) {
    forall i, j :: 0 <= i < j < |entries| ==> entries[i].key != entries[j].key
  }

  /** The index of the first entry with `key`, or the length. */
  function IndexOf(entries: seq<Entry>, key: string): (i: nat)
    ensures i <= |entries|
    ensures forall j :: 0 <= j < i ==> entries[j].key != key
    ensures i < |entries| ==> entries[i].key == key
  {
    if entries == [] || entries[0].key == key then 0 else 1 + IndexOf(entries[1..], key)
  }

  /** `Value::get` on an object's entries. */
  function Get(entries: seq<Entry>, key: string): Option<Value> {
    var i := IndexOf(entries, key);
    if i < |entries| then Some(entries[i].value) else None
  }

  /** The entries `retain` keeps when `key` is being replaced. */
  function Without(entries: seq<Entry>, key: string): seq<Entry> {
    if entries == [] then
      []
    else
      (if entries[0].key == key then [] else [entries[0]]) + Without(entries[1..], key)
  }

  /** `retain` then `push`: how the parser records a member. */
  function Upsert(entries: seq<Entry>, key: string, value: Value): seq<Entry> {
    Without(entries, key) + [Entry(key, value)]
  }

  /** What the parser has recorded after the members `pairs`, in source order. */
  function Collect(pairs: seq<Entry>): seq<Entry> {
    if pairs == [] then
      []
    else
      Upsert(Collect(pairs[..|pairs| - 1]), pairs[|pairs| - 1].key, pairs[|pairs| - 1].value)
  }

  lemma CollectSnoc(pairs: seq<Entry>, e: Entry)
    ensures Collect(pairs + [e]) == Upsert(Collect(pairs), e.key, e.value)
  {
    assert (pairs + [e])[..|pairs|] == pairs;
  }

  /** Independent reference: keep an entry exactly when no later entry has its key. */
  function LastOccurrences(pairs: seq<Entry>): seq<Entry> {
    if pairs == [] then
      []
    else
      (if HasKey(pairs[1..], pairs[0].key) then [] else [pairs[0]]) + LastOccurrences(pairs[1..])
  }

  /** Independent reference: later pairs overwrite earlier ones. */
  function LastWins(pairs: seq<Entry>): map<string, Value> {
    if pairs == [] then
      map[]
    else
      LastWins(pairs[..|pairs| - 1])[pairs[|pairs| - 1].key := pairs[|pairs| - 1].value]
  }

  lemma {:induction false} WithoutKeeps(entries: seq<Entry>, key: string, e: Entry)
    ensures e in Without(entries, key) <==> e in entries && e.key != key
  {
    if entries != [] {
      WithoutKeeps(entries[1..], key, e);
      assert entries == [entries[0]] + entries[1..];
    }
  }

  lemma {:induction false} WithoutConcat(a: seq<Entry>, b: seq<Entry>, key: string)
    ensures Without(a + b, key) == Without(a, key) + Without(b, key)
  {
    if a == [] {
      assert a + b == b;
    } else {
      assert (a + b)[1..] == a[1..] + b;
      WithoutConcat(a[1..], b, key);
    }
  }

  lemma {:induction false} WithoutDistinct(entries: seq<Entry>, key: string)
    requires DistinctKeys(entries)
    ensures DistinctKeys(Without(entries, key))
  {
    if entries != [] {
      var tail := entries[1..];
      WithoutDistinct(tail, key);
      var kept := Without(tail, key);
      forall i | 0 <= i < |kept| ensures kept[i].key != entries[0].key {
        WithoutKeeps(tail, key, kept[i]);
      }
    }
  }

  lemma {:induction false} WithoutAbsent(entries: seq<Entry>, key: string)
    requires !HasKey(entries, key)
    ensures Without(entries, key) == entries
  {
    if entries != [] {
      assert entries[0].key != key;
      forall i | 0 <= i < |entries[1..]| ensures entries[1..][i].key != key {
        assert entries[1..][i] == entries[i + 1];
      }
      WithoutAbsent(entries[1..], key);
    }
  }

  lemma UpsertDistinct(entries: seq<Entry>, key: string, value: Value)
    requires DistinctKeys(entries)
    ensures DistinctKeys(Upsert(entries, key, value))
  {
    WithoutDistinct(entries, key);
    var kept := Without(entries, key);
    forall i | 0 <= i < |kept| ensures kept[i].key != key {
      WithoutKeeps(entries, key, kept[i]);
    }
  }

  lemma {:induction false} CollectDistinct(pairs: seq<Entry>)
    ensures DistinctKeys(Collect(pairs))
  {
    if pairs != [] {
      var last := pairs[|pairs| - 1];
      CollectDistinct(pairs[..|pairs| - 1]);
      UpsertDistinct(Collect(pairs[..|pairs| - 1]), last.key, last.value);
    }
  }

  /** Distinct entries are recorded as they stand. */
  lemma {:induction false} CollectOfDistinct(pairs: seq<Entry>)
    requires DistinctKeys(pairs)
    ensures Collect(pairs) == pairs
  {
    if pairs != [] {
      var init := pairs[..|pairs| - 1];
      CollectOfDistinct(init);
      WithoutAbsent(init, pairs[|pairs| - 1].key);
      assert pairs == init + [pairs[|pairs| - 1]];
    }
  }

  lemma {:induction false} LastOccurrencesSnoc(pairs: seq<Entry>, e: Entry)
    ensures LastOccurrences(pairs + [e]) == Without(LastOccurrences(pairs), e.key) + [e]
  {
    if pairs == [] {
      assert pairs + [e] == [e];
      assert [e][1..] == [];
    } else {
      var tail := pairs[1..];
      assert (pairs + [e])[1..] == tail + [e];
      LastOccurrencesSnoc(tail, e);
      var head := if HasKey(tail, pairs[0].key) then [] else [pairs[0]];
      WithoutConcat(head, LastOccurrences(tail), e.key);
      HasKeySnoc(tail, e, pairs[0].key);
      assert head != [] ==> head[1..] == [];
    }
  }

  lemma HasKeySnoc(pairs: seq<Entry>, e: Entry, key: string)
    ensures HasKey(pairs + [e], key) <==> HasKey(pairs, key) || e.key == key
  {
    if HasKey(pairs, key) {
      var i :| 0 <= i < |pairs| && pairs[i].key == key;
      assert (pairs + [e])[i].key == key;
    }
    assert (pairs + [e])[|pairs|] == e;
  }

  /** The retain-then-push loop keeps exactly the last entry of each key, in source order. */
  lemma {:induction false} CollectIsLastOccurrences(pairs: seq<Entry>)
    ensures Collect(pairs) == LastOccurrences(pairs)
  {
    if pairs != [] {
      var init := pairs[..|pairs| - 1];
      CollectIsLastOccurrences(init);
      LastOccurrencesSnoc(init, pairs[|pairs| - 1]);
      assert init + [pairs[|pairs| - 1]] == pairs;
    }
  }

  lemma GetUnique(entries: seq<Entry>, i: nat)
    requires DistinctKeys(entries) && i < |entries|
    ensures Get(entries, entries[i].key) == Some(entries[i].value)
  {
  }

  lemma UpsertGet(entries: seq<Entry>, key: string, value: Value, probe: string)
    requires DistinctKeys(entries)
    ensures Get(Upsert(entries, key, value), probe) == if probe == key then Some(value) else Get(entries, probe)
  {
    var after := Upsert(entries, key, value);
    UpsertDistinct(entries, key, value);
    if probe == key {
      GetUnique(after, |after| - 1);
    } else {
      var i := IndexOf(entries, probe);
      if i < |entries| {
        WithoutKeeps(entries, key, entries[i]);
        assert entries[i] in Without(entries, key);
        assert entries[i] in after;
        var j :| 0 <= j < |after| && after[j] == entries[i];
        GetUnique(after, j);
      } else {
        var j := IndexOf(after, probe);
        if j < |after| {
          WithoutKeeps(entries, key, after[j]);
          assert false;
        }
      }
    }
  }

  /** Looking a key up in what the parser recorded is looking it up in the last-wins map. */
  lemma {:induction false} GetCollected(pairs: seq<Entry>, probe: string)
    ensures Get(Collect(pairs), probe)
         == if probe in LastWins(pairs) then Some(LastWins(pairs)[probe]) else None
  {
    if pairs != [] {
      var init, last := pairs[..|pairs| - 1], pairs[|pairs| - 1];
      GetCollected(init, probe);
      CollectDistinct(init);
      UpsertGet(Collect(init), last.key, last.value, probe);
    }
  }

  // Insertion in place

  /** `Value::insert`: overwrite the first entry with the key where it stands, else append. */
  function InsertEntry(entries: seq<Entry>, key: string, value: Value): seq<Entry> {
    var i := IndexOf(entries, key);
    if i < |entries| then entries[i := entries[i].(value := value)] else entries + [Entry(key, value)]
  }

  /** Every entry keeps its place and key, and its value unless it is the first with this key; a new
      key comes last. */
  predicate InPlace(before: seq<Entry>, after: seq<Entry>, key: string, value: Value) {
    && |after| == (if HasKey(before, key) then |before| else |before| + 1)
    && (forall j :: 0 <= j < |before| ==>
          && after[j].key == before[j].key
          && (after[j].value == before[j].value || (before[j].key == key && !HasKey(before[..j], key) && after[j].value == value)))
    && (!HasKey(before, key) ==> after[|before|] == Entry(key, value))
  }

  lemma InsertInPlace(entries: seq<Entry>, key: string, value: Value)
    ensures InPlace(entries, InsertEntry(entries, key, value), key, value)
  {
    var i := IndexOf(entries, key);
    if i < |entries| {
      assert entries[i].key == key;
      assert !HasKey(entries[..i], key);
    }
  }

  /** `insert` and the parser's loop differ in order only: the resulting maps agree. */
  lemma InsertAgrees(entries: seq<Entry>, key: string, value: Value, probe: string)
    requires DistinctKeys(entries)
    ensures DistinctKeys(InsertEntry(entries, key, value))
    ensures Get(InsertEntry(entries, key, value), probe) == Get(Upsert(entries, key, value), probe)
  {
    UpsertGet(entries, key, value, probe);
    var after := InsertEntry(entries, key, value);
    var i := IndexOf(after, probe);
    assert forall j :: 0 <= j < |entries| ==> after[j].key == entries[j].key;
    if IndexOf(entries, probe) < |entries| {
      GetUnique(after, IndexOf(entries, probe));
    } else if probe == key {
      GetUnique(after, |entries|);
    }
  }

  /** A value under construction, as `&mut Value` is used. */
  class Builder {
    var value: Value

    constructor (v: Value)
      ensures value == v
    {
      value := v;
    }

    /** Panics on anything but an object, hence the precondition. */
    method Insert(key: string, v: Value)
      requires value.Object?
      modifies this
      ensures value.Object?
      ensures forall probe ::
        Get(value.entries, probe) == if probe == key then Some(v) else Get(old(value.entries), probe)
      ensures value.entries == InsertEntry(old(value.entries), key, v)
      ensures InPlace(old(value.entries), value.entries, key, v)
    {
      InsertInPlace(value.entries, key, v);
      var entries := value.entries;
      var i := IndexOf(entries, key);
      if i < |entries| {
        value := Object(entries[i := entries[i].(value := v)]);
      } else {
        value := Object(entries + [Entry(key, v)]);
      }
      forall probe ensures Get(value.entries, probe) == if probe == key then Some(v) else Get(entries, probe) {
        InsertGet(entries, key, v, probe);
      }
    }

    /** Panics on anything but an array. */
    method Push(v: Value)
      requires value.Array?
      modifies this
      ensures value == Array(old(value.items) + [v])
    {
      value := Array(value.items + [v]);
    }
  }

  /** Even with repeated keys, `insert` changes what `get` finds at its own key only. */
  lemma InsertGet(entries: seq<Entry>, key: string, value: Value, probe: string)
    ensures Get(InsertEntry(entries, key, value), probe) == if probe == key then Some(value) else Get(entries, probe)
  {
    var after := InsertEntry(entries, key, value);
    var i, j := IndexOf(entries, probe), IndexOf(after, probe);
    assert forall k :: 0 <= k < |entries| ==> after[k].key == entries[k].key;
    if i < |entries| {
      assert after[i].key == probe;
      assert j == i;
    } else if probe == key {
      assert after[|entries|].key == probe;
      assert j == |entries|;
    } else {
      assert j == |after|;
    }
  }
}
