/** The Azure table that holds the folder index: entities addressed by
    (PartitionKey, RowKey), each a map from property name to value, written by
    merge-upsert and read by a filter query. */
module TableStore {
  import opened Common

  datatype Key = Key(partition: string, row: string)

  type Fields = map<string, string>

  type Table = map<Key, Fields>

  /** One `upsert_entity(entity, mode="merge")` call. */
  datatype Op = Op(key: Key, fields: Fields)

  /** The properties currently stored under `k` (none if it is absent). */
  function Current(t: Table, k: Key): Fields {
    if k in t then t[k] else map[]
  }

  // ---------------------------------------------------------------------------
  // Merge-upsert
  // ---------------------------------------------------------------------------

  /** Merge-upsert: creates the entity if absent, overwrites the listed
      properties, keeps the unlisted ones and touches no other entity. */
  function Merge(t: Table, op: Op): (r: Table)
    ensures r.Keys == t.Keys + {op.key}
    ensures forall k :: k in t && k != op.key ==> r[k] == t[k]
    ensures r[op.key].Keys == Current(t, op.key).Keys + op.fields.Keys
    ensures forall n :: n in op.fields ==> r[op.key][n] == op.fields[n]
    ensures forall n :: n in Current(t, op.key) && n !in op.fields ==> r[op.key][n] == t[op.key][n]
  {
    t[op.key := Current(t, op.key) + op.fields]
  }

  /** Merging the same entity twice is merging it once. */
  lemma MergeIdempotent(t: Table, op: Op)
    ensures Merge(Merge(t, op), op) == Merge(t, op)
  {
    var once := Merge(t, op);
    assert Current(once, op.key) + op.fields == Current(once, op.key);
  }

  /** The keys written by a batch. */
  function KeysOf(ops: seq<Op>): set<Key> {
    set i | 0 <= i < |ops| :: ops[i].key
  }

  /** A batch of merge-upserts applied in order. No entity is ever removed and
      entities the batch does not address are left as they were. */
  function MergeAll(t: Table, ops: seq<Op>): (r: Table)
    ensures r.Keys == t.Keys + KeysOf(ops)
    ensures forall k :: k in t && k !in KeysOf(ops) ==> r[k] == t[k]
  {
    if |ops| == 0 then t
    else
      var init := ops[..|ops| - 1];
      assert KeysOf(ops) == KeysOf(init) + {ops[|ops| - 1].key};
      Merge(MergeAll(t, init), ops[|ops| - 1])
  }

  /** Everything a batch wrote under `k`, later writes overriding earlier ones. */
  function Written(ops: seq<Op>, k: Key): Fields {
    if |ops| == 0 then map[]
    else if ops[|ops| - 1].key == k then Written(ops[..|ops| - 1], k) + ops[|ops| - 1].fields
    else Written(ops[..|ops| - 1], k)
  }

  lemma {:induction false} WrittenOutside(ops: seq<Op>, k: Key)
    requires k !in KeysOf(ops)
    ensures Written(ops, k) == map[]
  {
    if |ops| > 0 {
      var init := ops[..|ops| - 1];
      assert KeysOf(ops) == KeysOf(init) + {ops[|ops| - 1].key};
      WrittenOutside(init, k);
    }
  }

  lemma MapUnionAssoc(a: Fields, b: Fields, c: Fields)
    ensures (a + b) + c == a + (b + c)
  {
  }

  lemma CurrentMerge(t: Table, op: Op, k: Key)
    ensures Current(Merge(t, op), k) == if k == op.key then Current(t, k) + op.fields else Current(t, k)
  {
  }

  /** What a batch leaves under any key, present or not, is what was there
      overridden by everything the batch wrote to it. */
  lemma {:induction false} CurrentAfter(t: Table, ops: seq<Op>, k: Key)
    ensures Current(MergeAll(t, ops), k) == Current(t, k) + Written(ops, k)
  {
    if |ops| > 0 {
      var init := ops[..|ops| - 1];
      var last := ops[|ops| - 1];
      assert MergeAll(t, ops) == Merge(MergeAll(t, init), last);
      CurrentAfter(t, init, k);
      CurrentMerge(MergeAll(t, init), last, k);
      if k == last.key {
        MapUnionAssoc(Current(t, k), Written(init, k), last.fields);
      }
    } else {
      assert Current(t, k) + map[] == Current(t, k);
    }
  }

  /** Pointwise view of a batch: each entity is what it was, overridden by
      everything the batch wrote to it. */
  lemma MergeAllPointwise(t: Table, ops: seq<Op>, k: Key)
    requires k in t || k in KeysOf(ops)
    ensures MergeAll(t, ops)[k] == Current(t, k) + Written(ops, k)
  {
    CurrentAfter(t, ops, k);
  }

  /** The last write to `k` decides everything written before it when all
      writes to `k` carry the same property names. */
  lemma {:induction false} WrittenLast(ops: seq<Op>, k: Key, i: nat, names: set<string>)
    requires i < |ops| && ops[i].key == k
    requires forall j :: i < j < |ops| ==> ops[j].key != k
    requires forall j :: 0 <= j < |ops| && ops[j].key == k ==> ops[j].fields.Keys == names
    ensures Written(ops, k) == Written(ops[..i], k) + ops[i].fields
    ensures Written(ops[..i], k).Keys <= names
  {
    if i < |ops| - 1 {
      WrittenLast(ops[..|ops| - 1], k, i, names);
      assert ops[..|ops| - 1][..i] == ops[..i];
    } else {
      WrittenNames(ops[..i], k, names);
    }
  }

  lemma {:induction false} WrittenNames(ops: seq<Op>, k: Key, names: set<string>)
    requires forall j :: 0 <= j < |ops| && ops[j].key == k ==> ops[j].fields.Keys == names
    ensures Written(ops, k).Keys <= names
  {
    if |ops| > 0 {
      WrittenNames(ops[..|ops| - 1], k, names);
    }
  }

  /** After a batch whose writes to `k` all carry the same property names,
      the entity at `k` is what was there before, overridden by the last
      write. */
  lemma LastWriteWins(t: Table, ops: seq<Op>, i: nat, names: set<string>)
    requires i < |ops|
    requires forall j :: i < j < |ops| ==> ops[j].key != ops[i].key
    requires forall j :: 0 <= j < |ops| && ops[j].key == ops[i].key ==> ops[j].fields.Keys == names
    ensures MergeAll(t, ops)[ops[i].key] == Current(t, ops[i].key) + ops[i].fields
  {
    var k := ops[i].key;
    assert k in KeysOf(ops);
    MergeAllPointwise(t, ops, k);
    WrittenLast(ops, k, i, names);
    assert ops[i].fields.Keys == names;
    MapUnionAssoc(Current(t, k), Written(ops[..i], k), ops[i].fields);
    OverrideCovered(Written(ops[..i], k), ops[i].fields);
  }

  lemma OverrideCovered(a: Fields, b: Fields)
    requires a.Keys <= b.Keys
    ensures a + b == b
  {
  }

  /** Two batches that write the same properties to the same keys in the same
      order; they may differ in the values. */
  ghost predicate SameShape(ops1: seq<Op>, ops2: seq<Op>) {
    |ops1| == |ops2| &&
    forall i :: 0 <= i < |ops1| ==> ops1[i].key == ops2[i].key && ops1[i].fields.Keys == ops2[i].fields.Keys
  }

  lemma {:induction false} WrittenSameShape(ops1: seq<Op>, ops2: seq<Op>, k: Key)
    requires SameShape(ops1, ops2)
    ensures Written(ops1, k).Keys == Written(ops2, k).Keys
  {
    if |ops1| > 0 {
      WrittenSameShape(ops1[..|ops1| - 1], ops2[..|ops2| - 1], k);
    }
  }

  lemma OverrideShadows(a: Fields, b: Fields, c: Fields)
    requires b.Keys == c.Keys
    ensures (a + b) + c == a + c
  {
  }

  lemma {:induction false} KeysOfSameShape(ops1: seq<Op>, ops2: seq<Op>)
    requires SameShape(ops1, ops2)
    ensures KeysOf(ops1) == KeysOf(ops2)
  {
    forall k | k in KeysOf(ops1) ensures k in KeysOf(ops2) {
      var i :| 0 <= i < |ops1| && ops1[i].key == k;
      assert ops2[i].key == k;
    }
    forall k | k in KeysOf(ops2) ensures k in KeysOf(ops1) {
      var i :| 0 <= i < |ops2| && ops2[i].key == k;
      assert ops1[i].key == k;
    }
  }

  /** Re-running a batch of the same shape leaves the table exactly as if only
      the second run had happened: nothing of the first run survives. */
  lemma {:induction false} RerunOverrides(t: Table, ops1: seq<Op>, ops2: seq<Op>)
    requires SameShape(ops1, ops2)
    ensures MergeAll(MergeAll(t, ops1), ops2) == MergeAll(t, ops2)
  {
    var once := MergeAll(t, ops1);
    var twice := MergeAll(once, ops2);
    var direct := MergeAll(t, ops2);
    KeysOfSameShape(ops1, ops2);
    forall k | k in twice
      ensures twice[k] == direct[k]
    {
      MergeAllPointwise(once, ops2, k);
      MergeAllPointwise(t, ops2, k);
      MergeAllPointwise(t, ops1, k);
      WrittenSameShape(ops1, ops2, k);
      OverrideShadows(Current(t, k), Written(ops1, k), Written(ops2, k));
    }
  }

  /** When every write of a batch carries the same property names, a key the
      batch writes ends up with exactly those names written to it, and a key
      it does not write with none. */
  lemma {:induction false} WrittenUniform(ops: seq<Op>, k: Key, names: set<string>)
    requires forall j :: 0 <= j < |ops| ==> ops[j].fields.Keys == names
    ensures k in KeysOf(ops) ==> Written(ops, k).Keys == names
    ensures k !in KeysOf(ops) ==> Written(ops, k) == map[]
  {
    if |ops| > 0 {
      var init := ops[..|ops| - 1];
      assert KeysOf(ops) == KeysOf(init) + {ops[|ops| - 1].key};
      WrittenUniform(init, k, names);
    }
  }

  /** A batch cut short and then a complete batch over at least the keys it
      wrote, all writes carrying the same property names, leave the table as
      the complete batch alone would: nothing of the interrupted run
      survives. */
  lemma {:induction false} RerunCovers(t: Table, ops1: seq<Op>, ops2: seq<Op>, names: set<string>)
    requires forall j :: 0 <= j < |ops1| ==> ops1[j].fields.Keys == names
    requires forall j :: 0 <= j < |ops2| ==> ops2[j].fields.Keys == names
    requires KeysOf(ops1) <= KeysOf(ops2)
    ensures MergeAll(MergeAll(t, ops1), ops2) == MergeAll(t, ops2)
  {
    var once := MergeAll(t, ops1);
    var twice := MergeAll(once, ops2);
    var direct := MergeAll(t, ops2);
    forall k | k in twice
      ensures twice[k] == direct[k]
    {
      MergeAllPointwise(once, ops2, k);
      MergeAllPointwise(t, ops2, k);
      WrittenUniform(ops1, k, names);
      WrittenUniform(ops2, k, names);
      if k in KeysOf(ops1) {
        MergeAllPointwise(t, ops1, k);
        OverrideShadows(Current(t, k), Written(ops1, k), Written(ops2, k));
      } else if k in t {
        assert Current(once, k) == Current(t, k);
      } else {
        assert Current(once, k) == map[] == Current(t, k);
      }
    }
  }

  // ---------------------------------------------------------------------------
  // Queries
  // ---------------------------------------------------------------------------

  /** The filter `client_folder_id eq '<id>' and RowKey eq '<rowKey>'`: the
      PartitionKey takes no part in it, and an entity without a
      `client_folder_id` property never matches. */
  predicate Matches(t: Table, k: Key, clientFolderId: string, rowKey: string) {
    k in t && k.row == rowKey && "client_folder_id" in t[k] && t[k]["client_folder_id"] == clientFolderId
  }

  /** Ordinal string order, the order in which the table returns partitions. */
  predicate StrLe(a: string, b: string) {
    |a| == 0 || (|b| > 0 && (a[0] < b[0] || (a[0] == b[0] && StrLe(a[1..], b[1..]))))
  }

  lemma {:induction false} StrLeTotal(a: string, b: string)
    ensures StrLe(a, b) || StrLe(b, a)
  {
    if |a| > 0 && |b| > 0 && a[0] == b[0] {
      StrLeTotal(a[1..], b[1..]);
    }
  }

  lemma {:induction false} StrLeAntisymmetric(a: string, b: string)
    requires StrLe(a, b) && StrLe(b, a)
    ensures a == b
  {
    if |a| > 0 {
      StrLeAntisymmetric(a[1..], b[1..]);
      assert a == [a[0]] + a[1..];
      assert b == [b[0]] + b[1..];
    }
  }

  lemma {:induction false} StrLeTransitive(a: string, b: string, c: string)
    requires StrLe(a, b) && StrLe(b, c)
    ensures StrLe(a, c)
  {
    if |a| > 0 && a[0] == b[0] && b[0] == c[0] {
      StrLeTransitive(a[1..], b[1..], c[1..]);
    }
  }

  predicate IsLeast(m: string, s: set<string>) {
    m in s && forall x :: x in s ==> StrLe(m, x)
  }

  lemma {:induction false} LeastExists(s: set<string>)
    requires s != {}
    ensures exists m :: IsLeast(m, s)
    decreases |s|
  {
    var x :| x in s;
    var rest := s - {x};
    if rest == {} {
      assert s == {x};
      StrLeTotal(x, x);
      assert IsLeast(x, s);
    } else {
      LeastExists(rest);
      var m :| IsLeast(m, rest);
      StrLeTotal(x, m);
      if StrLe(x, m) {
        forall y | y in s ensures StrLe(x, y) {
          if y != x {
            StrLeTransitive(x, m, y);
          } else {
            StrLeTotal(x, x);
          }
        }
        assert IsLeast(x, s);
      } else {
        assert IsLeast(m, s);
      }
    }
  }

  lemma LeastUnique(s: set<string>)
    ensures forall m1, m2 :: IsLeast(m1, s) && IsLeast(m2, s) ==> m1 == m2
  {
    forall m1, m2 | IsLeast(m1, s) && IsLeast(m2, s) ensures m1 == m2 {
      StrLeAntisymmetric(m1, m2);
    }
  }

  /** The first element of a set in ordinal order. */
  function Least(s: set<string>): (m: string)
    requires s != {}
    ensures IsLeast(m, s)
  {
    LeastExists(s);
    LeastUnique(s);
    var m :| m in s && IsLeast(m, s); m
  }

  /** The matching entity the query yields first: the one with the least
      PartitionKey (the RowKey is fixed by the filter). */
  predicate IsFirstMatch(t: Table, k: Key, clientFolderId: string, rowKey: string) {
    && Matches(t, k, clientFolderId, rowKey)
    && forall k' :: k' in t && Matches(t, k', clientFolderId, rowKey) ==> StrLe(k.partition, k'.partition)
  }

  /** `query_entities(filter, results_per_page=1)` read up to its first
      entity: nothing when no entity matches, otherwise the first match. */
  function QueryFirst(t: Table, clientFolderId: string, rowKey: string): (r: Option<Fields>)
    ensures r.None? <==> forall k :: k in t ==> !Matches(t, k, clientFolderId, rowKey)
    ensures r.Some? ==> exists k :: IsFirstMatch(t, k, clientFolderId, rowKey) && r.value == t[k]
  {
    var parts := set k | k in t && Matches(t, k, clientFolderId, rowKey) :: k.partition;
    assert forall k :: k in t && Matches(t, k, clientFolderId, rowKey) ==> k.partition in parts;
    if parts == {} then None
    else
      var p := Least(parts);
      var k := Key(p, rowKey);
      assert IsFirstMatch(t, k, clientFolderId, rowKey);
      Some(t[k])
  }

  /** There is only one first match. */
  lemma FirstMatchUnique(t: Table, k1: Key, k2: Key, clientFolderId: string, rowKey: string)
    requires IsFirstMatch(t, k1, clientFolderId, rowKey) && IsFirstMatch(t, k2, clientFolderId, rowKey)
    ensures k1 == k2
  {
    StrLeAntisymmetric(k1.partition, k2.partition);
  }

  /** The query yields the first match, whichever key that is. */
  lemma QueryFirstIs(t: Table, k: Key, clientFolderId: string, rowKey: string)
    requires IsFirstMatch(t, k, clientFolderId, rowKey)
    ensures QueryFirst(t, clientFolderId, rowKey) == Some(t[k])
  {
    var r := QueryFirst(t, clientFolderId, rowKey);
    var k' :| IsFirstMatch(t, k', clientFolderId, rowKey) && r.value == t[k'];
    FirstMatchUnique(t, k, k', clientFolderId, rowKey);
  }

  /** A match that is the only one is the first one. */
  lemma OnlyMatchIsFirst(t: Table, k: Key, clientFolderId: string, rowKey: string)
    requires Matches(t, k, clientFolderId, rowKey)
    requires forall k' :: Matches(t, k', clientFolderId, rowKey) ==> k' == k
    ensures IsFirstMatch(t, k, clientFolderId, rowKey)
  {
    StrLeTotal(k.partition, k.partition);
  }
}
