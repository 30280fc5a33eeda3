/** Any run of the hash table, growth and bucket moves included, answers like a plain map. */
module AssocRuns {
  import opened AssocModel
  import opened AssocCode

  /** Requests of the workers, and the maintenance thread's actions between them. */
  datatype TableOp =
    | FindKey(key: Key)
    | InsertItem(it: Item, key: Key)
    | DeleteKey(key: Key)
    | StartExpansion(calloc: bool)
    | MoveBuckets(bulk: nat)

  /** What the operations do to the map from keys to items: maintenance does nothing at all. */
  function Step(m: map<Key, Item>, op: TableOp): map<Key, Item> {
    match op
    case InsertItem(it, key) => m[key := it]
    case DeleteKey(key) => m - {key}
    case _ => m
  }

  /** Only insertions have conditions, which the callers of the table ensure: the key is new and the item in no chain. */
  predicate Permitted(m: map<Key, Item>, op: TableOp) {
    op.InsertItem? ==> op.key !in m && op.it !in m.Values
  }

  predicate Legal(m: map<Key, Item>, ops: seq<TableOp>)
    decreases |ops|
  {
    ops == [] || (Permitted(m, ops[0]) && Legal(Step(m, ops[0]), ops[1..]))
  }

  /** The map after all of the operations. */
  function Final(m: map<Key, Item>, ops: seq<TableOp>): map<Key, Item>
    decreases |ops|
  {
    if ops == [] then m else Final(Step(m, ops[0]), ops[1..])
  }

  function Answer(m: map<Key, Item>, key: Key): Link {
    if key in m then To(m[key]) else Null
  }

  /** The answers the map gives to the lookups, in order. */
  function Answers(m: map<Key, Item>, ops: seq<TableOp>): seq<Link>
    decreases |ops|
  {
    if ops == [] then []
    else (if ops[0].FindKey? then [Answer(m, ops[0].key)] else []) + Answers(Step(m, ops[0]), ops[1..])
  }

  lemma {:induction false} FinalAppend(m: map<Key, Item>, ops: seq<TableOp>, op: TableOp)
    ensures Final(m, ops + [op]) == Step(Final(m, ops), op)
    decreases |ops|
  {
    hide Step;
    if ops == [] {
      assert (ops + [op])[1..] == [];
    } else {
      assert (ops + [op])[1..] == ops[1..] + [op];
      FinalAppend(Step(m, ops[0]), ops[1..], op);
    }
  }

  /** A lookup at the end adds one answer, taken from the map as all earlier operations left it. */
  lemma {:induction false} AnswerAtEnd(m: map<Key, Item>, ops: seq<TableOp>, key: Key)
    ensures Answers(m, ops + [FindKey(key)]) ==
              Answers(m, ops) + [if key in Final(m, ops) then To(Final(m, ops)[key]) else Null]
    decreases |ops|
  {
    hide Step;
    var all := ops + [FindKey(key)];
    if ops == [] {
      assert all == [FindKey(key)] && all[1..] == [];
      assert Answers(m, all) == [Answer(m, key)];
    } else {
      assert all[1..] == ops[1..] + [FindKey(key)] && all[0] == ops[0];
      var next := Step(m, ops[0]);
      AnswerAtEnd(next, ops[1..], key);
      var first := if ops[0].FindKey? then [Answer(m, ops[0].key)] else [];
      assert Answers(m, ops) == first + Answers(next, ops[1..]);
      assert Answers(m, all) == first + Answers(next, all[1..]);
      assert Final(m, ops) == Final(next, ops[1..]);
      hide Answers, Final;
    }
  }

  /** The operation inserts or deletes under this key. */
  predicate Concerns(op: TableOp, key: Key) {
    (op.InsertItem? || op.DeleteKey?) && op.key == key
  }

  /** Whatever else happens, growth included, a key maps to the item last inserted under it, and to none once deleted. */
  lemma {:induction false} LastChangeDecides(m: map<Key, Item>, ops: seq<TableOp>, op: TableOp, later: seq<TableOp>, key: Key)
    requires Concerns(op, key) && forall o :: o in later ==> !Concerns(o, key)
    ensures op.InsertItem? ==> key in Final(m, ops + [op] + later) && Final(m, ops + [op] + later)[key] == op.it
    ensures op.DeleteKey? ==> key !in Final(m, ops + [op] + later)
    decreases |later|
  {
    if later == [] {
      assert ops + [op] + later == ops + [op];
      FinalAppend(m, ops, op);
      hide Final;
    } else {
      var n := |later| - 1;
      assert ops + [op] + later == ops + [op] + later[..n] + [later[n]];
      LastChangeDecides(m, ops, op, later[..n], key);
      FinalAppend(m, ops + [op] + later[..n], later[n]);
      assert later[n] in later;
      hide Final;
    }
  }

  /** The items of the table are the values of the map, each under its own key. */
  ghost predicate Represents(keyOf: Item -> Key, items: set<Item>, m: map<Key, Item>) {
    && (forall k :: k in m ==> m[k] in items && keyOf(m[k]) == k)
    && (forall x :: x in items ==> keyOf(x) in m && m[keyOf(x)] == x)
  }

  /** Writing the key of an item outside the table, then adding it. */
  lemma NewItem(keyOf: Item -> Key, keyOf': Item -> Key, items: set<Item>, m: map<Key, Item>, it: Item, key: Key)
    requires Represents(keyOf, items, m) && key !in m && it !in items
    requires keyOf'(it) == key && forall x :: x != it ==> keyOf'(x) == keyOf(x)
    ensures forall x :: x in items ==> keyOf'(x) != key
    ensures Represents(keyOf', items + {it}, m[key := it])
  {
  }

  lemma NotLinked(keyOf: Item -> Key, items: set<Item>, m: map<Key, Item>, it: Item)
    requires Represents(keyOf, items, m) && it !in m.Values
    ensures it !in items
  {
  }

  lemma GoneItem(keyOf: Item -> Key, items: set<Item>, m: map<Key, Item>, gone: Item)
    requires Represents(keyOf, items, m) && gone in items
    ensures Represents(keyOf, items - {gone}, m - {keyOf(gone)})
  {
  }

  lemma NothingGone(keyOf: Item -> Key, items: set<Item>, m: map<Key, Item>, key: Key)
    requires Represents(keyOf, items, m) && forall x :: x in items ==> keyOf(x) != key
    ensures m - {key} == m
  {
  }

  /**
   * Whatever the table's state and however finds, insertions, deletions, expansions and bucket moves interleave,
   * every lookup is answered as by a map that knows nothing of tables, and the table ends as that map does.
   */
  method Run(table: HashTable, ops: seq<TableOp>, ghost m0: map<Key, Item>) returns (answers: seq<Link>)
    requires table.Valid() && Represents(table.keyOf, table.items, m0) && Legal(m0, ops)
    modifies table, table.primary, table.previous
    ensures table.Valid() && Represents(table.keyOf, table.items, Final(m0, ops))
    ensures answers == Answers(m0, ops)
  {
    hide HashTable.Valid, Represents, Step, Permitted;
    answers := [];
    ghost var m := m0;
    var i := 0;
    assert ops[0..] == ops;
    while i < |ops|
      invariant i <= |ops| && table.Valid() && Represents(table.keyOf, table.items, m)
      invariant Legal(m, ops[i..]) && Final(m, ops[i..]) == Final(m0, ops)
      invariant answers + Answers(m, ops[i..]) == Answers(m0, ops)
      invariant fresh({table.primary, table.previous} - old({table.primary, table.previous}))
    {
      assert ops[i..][0] == ops[i] && ops[i..][1..] == ops[i + 1..];
      var found := Perform(table, ops[i], m);
      answers := answers + found;
      m := Step(m, ops[i]);
      i := i + 1;
    }
  }

  method Perform(table: HashTable, op: TableOp, ghost m: map<Key, Item>) returns (found: seq<Link>)
    requires table.Valid() && Represents(table.keyOf, table.items, m) && Permitted(m, op)
    modifies table, table.primary, table.previous
    ensures table.Valid() && Represents(table.keyOf, table.items, Step(m, op))
    ensures found == if op.FindKey? then [Answer(m, op.key)] else []
    ensures fresh({table.primary, table.previous} - old({table.primary, table.previous}))
  {
    hide HashTable.Valid, Represents;
    found := [];
    match op {
      case FindKey(key) =>
        var l := table.Find(key, table.hash(key));
        FoundInMap(table.keyOf, table.items, m, key, l);
        found := [l];
      case InsertItem(it, key) =>
        ghost var keys := table.keyOf;
        NotLinked(keys, table.items, m, it);
        table.WriteKey(it, key);
        NewItem(keys, table.keyOf, table.items, m, it, key);
        table.Insert(it, table.hash(key));
      case DeleteKey(key) =>
        ghost var before := table.items;
        ghost var gone := table.Delete(key, table.hash(key));
        if gone.To? {
          GoneItem(table.keyOf, before, m, gone.item);
        } else {
          NothingGone(table.keyOf, before, m, key);
        }
      case StartExpansion(calloc) =>
        if !table.expanding {
          table.Expand(calloc);
        }
      case MoveBuckets(bulk) =>
        table.Maintain(bulk);
        if !table.expanding {
          table.Park();
        }
    }
  }

  lemma FoundInMap(keyOf: Item -> Key, items: set<Item>, m: map<Key, Item>, key: Key, l: Link)
    requires Represents(keyOf, items, m)
    requires l.To? ==> l.item in items && keyOf(l.item) == key
    requires l.Null? ==> forall x :: x in items ==> keyOf(x) != key
    ensures l == Answer(m, key)
  {
  }
}
