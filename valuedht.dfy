/** The value-carrying side of the dynamic hash table, as src/getlines.c and
    src/tsvlib.c call it (`insertStrVal`, `changeStrVal`, `setAllValues`,
    `countValues`, `countNotValues`, `getStringValue` and the iterator;
    `dhtNumStrings` is the length of `entries`). No file of the core defines
    these calls, so this module states the contract those callers rely on,
    over the entries in insertion order: a key's position in `entries` is its
    order, as in dht.c. */
module ValueDht {
  import opened Text

  datatype Entry = Entry(key: Bytes, value: int)

  /** The position of `key` in `es`, or -1. */
  function Find(es: seq<Entry>, key: Bytes): (r: int)
    ensures -1 <= r < |es|
    ensures r == -1 <==> forall i :: 0 <= i < |es| ==> es[i].key != key
    ensures r >= 0 ==> es[r].key == key && forall i :: 0 <= i < r ==> es[i].key != key
  {
    if |es| == 0 then -1
    else if es[|es| - 1].key == key && Find(es[..|es| - 1], key) == -1 then |es| - 1
    else Find(es[..|es| - 1], key)
  }

  /** The first position holding `key` is the one Find reports. */
  lemma FindFirst(es: seq<Entry>, key: Bytes, i: nat)
    requires i < |es| && es[i].key == key
    requires forall m :: 0 <= m < i ==> es[m].key != key
    ensures Find(es, key) == i
  {
    var j := Find(es, key);
    assert j != -1;
    assert !(j < i);
  }

  /** Tables with the same keys in the same order find every key at the same place. */
  lemma FindSameKeys(a: seq<Entry>, b: seq<Entry>, k: Bytes)
    requires Keys(a) == Keys(b)
    ensures Find(a, k) == Find(b, k)
  {
    assert |a| == |Keys(a)| == |b|;
    assert forall m :: 0 <= m < |a| ==> a[m].key == Keys(a)[m] == b[m].key;
    var j := Find(a, k);
    if j >= 0 {
      FindFirst(b, k, j);
    }
  }

  ghost predicate DistinctKeys(es: seq<Entry>)
  {
    forall i, j :: 0 <= i < j < |es| ==> es[i].key != es[j].key
  }

  /** The keys in insertion order, as the iterator yields them. */
  function Keys(es: seq<Entry>): (ks: seq<Bytes>)
  {
    seq(|es|, i requires 0 <= i < |es| => es[i].key)
  }

  /** The value stored for `key`, as `getStringValue` reports it: -1 when absent. */
  function ValueOf(es: seq<Entry>, key: Bytes): int
  {
    var i := Find(es, key);
    if i < 0 then -1 else es[i].value
  }

  /** insertStrVal: a new key is appended with `v`; a stored key gets `v`. */
  function Upsert(es: seq<Entry>, key: Bytes, v: int): seq<Entry>
  {
    var i := Find(es, key);
    if i < 0 then es + [Entry(key, v)] else es[i := Entry(key, v)]
  }

  /** changeStrVal: a stored key gets `v`; otherwise nothing changes. */
  function Change(es: seq<Entry>, key: Bytes, v: int): seq<Entry>
  {
    var i := Find(es, key);
    if i < 0 then es else es[i := Entry(key, v)]
  }

  function CountEq(es: seq<Entry>, v: int): (n: nat)
    ensures n <= |es|
  {
    if |es| == 0 then 0 else CountEq(es[..|es| - 1], v) + (if es[|es| - 1].value == v then 1 else 0)
  }

  /** Replacing or appending an entry that is not `k`'s leaves `k`'s position alone. */
  lemma FindElsewhere(es: seq<Entry>, r: seq<Entry>, k: Bytes)
    requires |es| <= |r| <= |es| + 1
    requires forall m :: 0 <= m < |r| && (m >= |es| || r[m] != es[m]) ==> r[m].key != k && (m < |es| ==> es[m].key != k)
    ensures Find(r, k) == Find(es, k)
  {
    var j := Find(es, k);
    if j >= 0 {
      FindFirst(r, k, j);
    }
  }

  /** Overwriting an entry with one of the same key keeps the keys. */
  lemma ReplaceSameKey(es: seq<Entry>, i: nat, e: Entry)
    requires i < |es| && e.key == es[i].key
    ensures Keys(es[i := e]) == Keys(es)
    ensures DistinctKeys(es) ==> DistinctKeys(es[i := e])
  {
    assert forall m :: 0 <= m < |es| ==> es[i := e][m].key == es[m].key;
  }

  /** Appending an absent key keeps the keys distinct and adds it at the end. */
  lemma AppendNewKey(es: seq<Entry>, e: Entry)
    requires DistinctKeys(es) && Find(es, e.key) < 0
    ensures DistinctKeys(es + [e]) && Keys(es + [e]) == Keys(es) + [e.key]
  {
  }

  /** Upsert stores `v` for `key` and appends `key` when it is new. */
  lemma UpsertSpec(es: seq<Entry>, key: Bytes, v: int)
    requires DistinctKeys(es)
    ensures var r := Upsert(es, key, v);
      && DistinctKeys(r)
      && ValueOf(r, key) == v
      && (Find(es, key) >= 0 ==> Keys(r) == Keys(es))
      && (Find(es, key) < 0 ==> Keys(r) == Keys(es) + [key])
  {
    var i := Find(es, key);
    var r := Upsert(es, key, v);
    if i >= 0 {
      ReplaceSameKey(es, i, Entry(key, v));
      FindFirst(r, key, i);
    } else {
      AppendNewKey(es, Entry(key, v));
      FindFirst(r, key, |es|);
    }
  }

  /** Upsert leaves every other key's order and value alone. */
  lemma UpsertOther(es: seq<Entry>, key: Bytes, v: int, k: Bytes)
    requires k != key
    ensures Find(Upsert(es, key, v), k) == Find(es, k)
    ensures ValueOf(Upsert(es, key, v), k) == ValueOf(es, k)
  {
    FindElsewhere(es, Upsert(es, key, v), k);
  }

  /** Change stores `v` for a stored key and leaves the keys as they were. */
  lemma ChangeSpec(es: seq<Entry>, key: Bytes, v: int)
    requires DistinctKeys(es)
    ensures var r := Change(es, key, v);
      && DistinctKeys(r)
      && Keys(r) == Keys(es)
      && ValueOf(r, key) == (if Find(es, key) >= 0 then v else -1)
  {
    var i := Find(es, key);
    if i >= 0 {
      ReplaceSameKey(es, i, Entry(key, v));
      FindFirst(Change(es, key, v), key, i);
    }
  }

  /** Change leaves every other key's order and value alone. */
  lemma ChangeOther(es: seq<Entry>, key: Bytes, v: int, k: Bytes)
    requires k != key
    ensures Find(Change(es, key, v), k) == Find(es, k)
    ensures ValueOf(Change(es, key, v), k) == ValueOf(es, k)
  {
    FindElsewhere(es, Change(es, key, v), k);
  }

  /** countValues(v) is the whole table exactly when every value is `v`, and zero
      exactly when none is. */
  lemma {:induction false} CountSplit(es: seq<Entry>, v: int)
    ensures CountEq(es, v) == |es| <==> forall i :: 0 <= i < |es| ==> es[i].value == v
    ensures CountEq(es, v) == 0 <==> forall i :: 0 <= i < |es| ==> es[i].value != v
  {
    if |es| > 0 {
      CountSplit(es[..|es| - 1], v);
      assert forall i :: 0 <= i < |es| - 1 ==> es[..|es| - 1][i] == es[i];
    }
  }

  /** Every key with value `v`, in the same order. */
  function Reset(es: seq<Entry>, v: int): seq<Entry>
  {
    seq(|es|, i requires 0 <= i < |es| => Entry(es[i].key, v))
  }

  /** setAllValues keeps the keys, and gives each of them `v`. */
  lemma ResetSpec(es: seq<Entry>, v: int)
    ensures Keys(Reset(es, v)) == Keys(es)
    ensures DistinctKeys(es) ==> DistinctKeys(Reset(es, v))
    ensures forall i :: 0 <= i < |es| ==> Reset(es, v)[i].value == v
    ensures forall k :: Find(Reset(es, v), k) == Find(es, k)
  {
    forall k
      ensures Find(Reset(es, v), k) == Find(es, k)
    {
      FindSameKeys(Reset(es, v), es, k);
    }
  }

  class ValueTab {
    /** The stored keys with their values, in insertion order. */
    var entries: seq<Entry>

    ghost predicate Valid()
      reads this
    {
      DistinctKeys(entries)
    }

    /** newDynHashTab(size, initialValue): an empty table. */
    constructor ()
      ensures Valid() && entries == []
    {
      entries := [];
    }

    /** The position of `key`, walking the entries in insertion order. */
    method Locate(key: Bytes) returns (i: int)
      ensures i == Find(entries, key)
    {
      i := 0;
      while i < |entries| && entries[i].key != key
        invariant 0 <= i <= |entries|
        invariant forall m :: 0 <= m < i ==> entries[m].key != key
      {
        i := i + 1;
      }
      if i == |entries| {
        i := -1;
      }
    }

    /** getStringValue: the value of `key`, -1 when it is not stored. */
    method GetStringValue(key: Bytes) returns (v: int)
      ensures v == ValueOf(entries, key)
    {
      var i := Locate(key);
      v := if i < 0 then -1 else entries[i].value;
    }

    /** insertStrVal: store `key` with value `v`, appending it when new. */
    method InsertStrVal(key: Bytes, v: int)
      requires Valid()
      modifies this
      ensures Valid() && entries == Upsert(old(entries), key, v)
    {
      UpsertSpec(entries, key, v);
      var i := Locate(key);
      if i < 0 {
        entries := entries + [Entry(key, v)];
      } else {
        entries := entries[i := Entry(key, v)];
      }
    }

    /** changeStrVal: give a stored `key` the value `v`; ignore other keys. */
    method ChangeStrVal(key: Bytes, v: int)
      requires Valid()
      modifies this
      ensures Valid() && entries == Change(old(entries), key, v)
    {
      ChangeSpec(entries, key, v);
      var i := Locate(key);
      if i >= 0 {
        entries := entries[i := Entry(key, v)];
      }
    }

    /** setAllValues: every stored key gets `v`. */
    method SetAllValues(v: int)
      requires Valid()
      modifies this
      ensures Valid() && entries == Reset(old(entries), v)
    {
      ResetSpec(entries, v);
      var i := 0;
      while i < |entries|
        invariant 0 <= i <= |entries| && |entries| == |old(entries)|
        invariant forall m :: 0 <= m < |entries| ==> entries[m].key == old(entries)[m].key
        invariant forall m :: 0 <= m < i ==> entries[m].value == v
        invariant forall m :: i <= m < |entries| ==> entries[m] == old(entries)[m]
      {
        entries := entries[i := Entry(entries[i].key, v)];
        i := i + 1;
      }
      assert entries == Reset(old(entries), v);
    }

    /** countValues: the number of keys whose value is `v`. */
    method CountValues(v: int) returns (n: nat)
      ensures n == CountEq(entries, v)
    {
      n := 0;
      var i := 0;
      while i < |entries|
        invariant 0 <= i <= |entries|
        invariant n == CountEq(entries[..i], v)
      {
        assert entries[..i + 1][..i] == entries[..i];
        if entries[i].value == v {
          n := n + 1;
        }
        i := i + 1;
      }
      assert entries[..i] == entries;
    }

    /** countNotValues: the number of keys whose value is not `v`. */
    method CountNotValues(v: int) returns (n: nat)
      ensures n == |entries| - CountEq(entries, v)
    {
      n := 0;
      var i := 0;
      while i < |entries|
        invariant 0 <= i <= |entries|
        invariant n == i - CountEq(entries[..i], v)
      {
        assert entries[..i + 1][..i] == entries[..i];
        if entries[i].value != v {
          n := n + 1;
        }
        i := i + 1;
      }
      assert entries[..i] == entries;
    }
  }
}
