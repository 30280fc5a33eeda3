/** assoc.c itself: find, insert and delete keep working, and stay exact, while the table is being moved bucket by bucket. */
module AssocCode {
  import opened Bits
  import opened Sequences
  import opened AssocModel

  /** More than one and a half items per bucket. */
  predicate Overloaded(n: nat, buckets: nat) {
    n > buckets * 3 / 2
  }

  lemma OverloadedIs(n: nat, buckets: nat)
    ensures Overloaded(n, buckets) <==> 2 * n > 3 * buckets
  {
  }

  ghost predicate UniqueKeys(keyOf: Item -> Key, items: set<Item>) {
    forall x, y :: x in items && y in items && keyOf(x) == keyOf(y) ==> x == y
  }

  lemma UniqueKeysAdd(keyOf: Item -> Key, items: set<Item>, it: Item)
    requires UniqueKeys(keyOf, items) && forall x :: x in items ==> keyOf(x) != keyOf(it)
    ensures UniqueKeys(keyOf, items + {it})
  {
  }

  lemma UniqueKeysRemove(keyOf: Item -> Key, items: set<Item>, it: Item)
    requires UniqueKeys(keyOf, items)
    ensures UniqueKeys(keyOf, items - {it})
  {
  }

  /** What a new key written at `it` makes of the keys in memory. */
  function Rekeyed(keyOf: Item -> Key, it: Item, key: Key): Item -> Key {
    (x: Item) => if x == it then key else keyOf(x)
  }

  lemma UniqueKeysRekeyed(keyOf: Item -> Key, items: set<Item>, it: Item, key: Key)
    requires UniqueKeys(keyOf, items) && it !in items
    ensures UniqueKeys(Rekeyed(keyOf, it, key), items)
  {
  }

  function HashingOf(hash: Key -> nat, keyOf: Item -> Key): Hashing {
    (it: Item) => hash(keyOf(it))
  }

  class HashTable {
    const hash: Key -> nat
    /** The key stored at every item address: `ITEM_key(it)` and `it->nkey`. */
    var keyOf: Item -> Key
    var primary: array<Link>
    var previous: array<Link>
    var hashpower: nat
    var expanding: bool
    var expandBucket: nat
    var hashItems: nat
    var startedExpanding: bool
    /** The `h_next` field of every item. */
    var next: map<Item, Link>
    /** The items in the table, and the chains they form. */
    ghost var items: set<Item>
    ghost var pc: seq<seq<Item>>
    ghost var oc: seq<seq<Item>>

    ghost function Shape(): Geometry
      reads this`hashpower, this`expanding, this`expandBucket
    {
      Geometry(hashpower, expanding, expandBucket)
    }

    function Home(): Hashing
      reads this`keyOf
    {
      HashingOf(hash, keyOf)
    }

    /** The chains are where lookups expect them, in the tables the pointers say. */
    ghost predicate Sound()
      reads this`keyOf, this`primary, this`previous, this`hashpower, this`expanding, this`expandBucket, this`next, this`items,
        this`pc, this`oc, primary, previous
    {
      && Placed(Home(), items, Shape(), pc, oc)
      && Table(next, primary[..], pc)
      && (expanding ==> previous != primary && Table(next, previous[..], oc))
    }

    ghost predicate Valid()
      reads this, primary, previous
    {
      && Sound()
      && UniqueKeys(keyOf, items)
      && hashItems == |items|
    }

    /** `assoc_init` with the given power. */
    constructor (hash: Key -> nat, keyOf: Item -> Key, power: nat)
      ensures Valid() && items == {} && hashpower == power && !expanding && !startedExpanding
      ensures this.hash == hash && this.keyOf == keyOf && fresh(primary) && fresh(previous)
    {
      this.hash, this.keyOf := hash, keyOf;
      hashpower, expanding, expandBucket, hashItems, startedExpanding := power, false, 0, 0, false;
      var table := new Link[Pow2(power)](_ => Null);
      primary, previous := table, new Link[0](_ => Null);
      next, items := map[], {};
      pc, oc := Empties(Pow2(power)), [];
      new;
      assert Table(next, primary[..], pc);
    }

    /** The chain of the slot a hash value maps to. */
    ghost function ChainOf(hv: nat): seq<Item>
      requires Sound()
      reads this`keyOf, this`primary, this`previous, this`hashpower, this`expanding, this`expandBucket, this`next, this`items,
        this`pc, this`oc, primary, previous
    {
      SlotExists(Shape(), hv);
      match SlotOf(Shape(), hv)
      case Primary(b) => pc[b]
      case Previous(b) => oc[b]
    }

    /** The pointer the lookups start from. */
    method Head(hv: nat) returns (it: Link)
      requires Sound()
      ensures Linked(next, it, ChainOf(hv)) && Distinct(ChainOf(hv))
    {
      hide Linked, Distinct;
      SlotExists(Shape(), hv);
      if expanding && Masked(hv, hashpower - 1) >= expandBucket {
        it := previous[Masked(hv, hashpower - 1)];
      } else {
        it := primary[Masked(hv, hashpower)];
      }
    }

    lemma InChain(x: Item)
      requires Sound()
      ensures x in items <==> x in ChainOf(Home()(x))
    {
      hide Table, SlotOf;
      SlotExists(Shape(), Home()(x));
    }

    /** `assoc_find`: the item with that key if it is in the table, and NULL only if it is not. */
    method Find(key: Key, hv: nat) returns (ret: Link)
      requires Valid() && hv == hash(key)
      ensures ret.To? ==> ret.item in items && keyOf(ret.item) == key
      ensures ret.Null? ==> forall x :: x in items ==> keyOf(x) != key
    {
      hide Placed, Table, Distinct;
      var it := Head(hv);
      ghost var c := ChainOf(hv);
      ghost var i := 0;
      assert c[0..] == c;
      while it != Null
        invariant 0 <= i <= |c| && Linked(next, it, c[i..])
        invariant forall j :: 0 <= j < i ==> keyOf(c[j]) != key
        decreases |c| - i
      {
        if keyOf(it.item) == key {
          assert c[i..][0] == c[i];
          FromChain(hv, c[i]);
          return it;
        }
        assert c[i..][1..] == c[i + 1..];
        it := next[it.item];
        i := i + 1;
      }
      ret := Null;
      forall x | x in items
        ensures keyOf(x) != key
      {
        InChain(x);
      }
    }

    lemma FromChain(hv: nat, x: Item)
      requires Sound() && x in ChainOf(hv)
      ensures x in items
    {
      hide Table, SlotOf;
      SlotExists(Shape(), hv);
    }

    /** The key of an item that is in no table is written, as when its memory is allocated anew. */
    method WriteKey(it: Item, key: Key)
      requires Valid() && it !in items
      modifies this`keyOf
      ensures Valid() && keyOf(it) == key && forall x :: x != it ==> keyOf(x) == old(keyOf(x))
    {
      hide Placed, Table, UniqueKeys;
      UniqueKeysRekeyed(keyOf, items, it, key);
      PlacedRehash(Home(), HashingOf(hash, Rekeyed(keyOf, it, key)), items, Shape(), pc, oc);
      keyOf := Rekeyed(keyOf, it, key);
    }

    /** `assoc_insert`: the item goes to the head of its chain, in whichever table that chain is now. */
    method Insert(it: Item, hv: nat)
      requires Valid() && hv == hash(keyOf(it))
      requires it !in items && forall x :: x in items ==> keyOf(x) != keyOf(it)
      modifies this, primary, previous
      ensures Valid() && primary == old(primary) && previous == old(previous)
      ensures items == old(items) + {it} && Shape() == old(Shape()) && keyOf == old(keyOf)
      ensures startedExpanding == (old(startedExpanding) || (!expanding && 2 * |items| > 3 * Pow2(hashpower)))
    {
      hide Sound, Pow2, Overloaded, UniqueKeys;
      UniqueKeysAdd(keyOf, items, it);
      Push(it, hv);
      hashItems := hashItems + 1;
      OverloadedIs(hashItems, Pow2(hashpower));
      if !expanding && Overloaded(hashItems, Pow2(hashpower)) {
        startedExpanding := true;
      }
    }

    method Push(it: Item, hv: nat)
      requires Sound() && it !in items && hv == hash(keyOf(it))
      modifies this`next, this`items, this`pc, this`oc, primary, previous
      ensures Sound() && items == old(items) + {it}
    {
      hide Sound, Pow2, Masked;
      UnfoldPlaced();
      if expanding && Masked(hv, hashpower - 1) >= expandBucket {
        PushPrevious(it, Masked(hv, hashpower - 1));
      } else {
        PushPrimary(it, Masked(hv, hashpower));
      }
    }

    method PushPrimary(it: Item, b: nat)
      requires Sound() && it !in items && SlotOf(Shape(), Home()(it)) == Primary(b)
      modifies this`next, this`items, this`pc, primary
      ensures Sound() && items == old(items) + {it}
    {
      hide Placed, Table, Linked, SlotOf, Distinct;
      ghost var ps := primary[..];
      assert b < |pc| by { UnfoldPlaced(); SlotExists(Shape(), Home()(it)); }
      assert b < primary.Length by { UnfoldTables(); }
      NotListed(Home(), items, Shape(), pc, oc, it);
      TablePush(next, ps, pc, b, it);
      if expanding {
        TableIgnores(next, previous[..], oc, it, ps[b]);
      }
      PlacedPushPrimary(Home(), items, Shape(), pc, oc, it, b);
      next := next[it := primary[b]];
      primary[b] := To(it);
      pc := pc[b := [it] + pc[b]];
      items := items + {it};
      assert primary[..] == ps[b := To(it)];
    }

    method PushPrevious(it: Item, b: nat)
      requires Sound() && expanding && it !in items && SlotOf(Shape(), Home()(it)) == Previous(b)
      modifies this`next, this`items, this`oc, previous
      ensures Sound() && items == old(items) + {it}
    {
      hide Placed, Table, Linked, SlotOf, Distinct;
      ghost var os := previous[..];
      assert b < |oc| by { UnfoldPlaced(); SlotExists(Shape(), Home()(it)); }
      assert b < previous.Length by { UnfoldTables(); }
      NotListed(Home(), items, Shape(), pc, oc, it);
      TablePush(next, os, oc, b, it);
      TableIgnores(next, primary[..], pc, it, os[b]);
      PlacedPushPrevious(Home(), items, Shape(), pc, oc, it, b);
      next := next[it := previous[b]];
      previous[b] := To(it);
      oc := oc[b := [it] + oc[b]];
      items := items + {it};
      assert previous[..] == os[b := To(it)];
    }

    /**
     * `_hashitem_before`: the position of the key in its chain, told by the item before it (NULL at the head of
     * the bucket) and the item there (NULL if the key is missing).
     */
    method HashItemBefore(key: Key, hv: nat) returns (before: Link, found: Link, ghost i: nat)
      requires Sound() && hv == hash(key)
      ensures found.To? ==> i < |ChainOf(hv)| && found.item == ChainOf(hv)[i] && keyOf(found.item) == key && found.item in next
      ensures found.To? ==> before == if i == 0 then Null else To(ChainOf(hv)[i - 1])
      ensures found.Null? ==> forall x :: x in items ==> keyOf(x) != key
    {
      hide Placed, Table, Distinct;
      found := Head(hv);
      before := Null;
      ghost var c := ChainOf(hv);
      i := 0;
      assert c[0..] == c;
      while found != Null && keyOf(found.item) != key
        invariant i <= |c| && Linked(next, found, c[i..])
        invariant forall j :: 0 <= j < i ==> keyOf(c[j]) != key
        invariant before == if i == 0 then Null else To(c[i - 1])
        decreases |c| - i
      {
        assert c[i..][0] == c[i] && c[i..][1..] == c[i + 1..];
        before := found;
        found := next[found.item];
        i := i + 1;
      }
      if found == Null {
        forall x | x in items
          ensures keyOf(x) != key
        {
          InChain(x);
        }
      } else {
        assert c[i..][0] == c[i];
      }
    }

    /**
     * `assoc_delete`: exactly the item with that key leaves the table. A missing key changes nothing; the code
     * then reaches an assertion, which stops the program unless it is compiled out.
     */
    method Delete(key: Key, hv: nat) returns (ghost gone: Link)
      requires Valid() && hv == hash(key)
      modifies this, primary, previous
      ensures Valid() && primary == old(primary) && previous == old(previous) && Shape() == old(Shape())
      ensures gone.To? ==> gone.item in old(items) && keyOf(gone.item) == key && items == old(items) - {gone.item}
      ensures gone.Null? ==> forall x :: x in items ==> keyOf(x) != key
      ensures gone.Null? ==> items == old(items) && next == old(next)
      ensures gone.Null? ==> primary[..] == old(primary[..]) && previous[..] == old(previous[..])
      ensures startedExpanding == old(startedExpanding) && keyOf == old(keyOf)
    {
      hide Sound, Linked, Distinct, Masked, Pow2, UniqueKeys;
      var before, found;
      ghost var i;
      before, found, i := HashItemBefore(key, hv);
      gone := found;
      if found == Null {
        return;
      }
      FromChain(hv, found.item);
      UniqueKeysRemove(keyOf, items, found.item);
      UnfoldPlaced();
      UnfoldTables();
      SlotExists(Shape(), hv);
      hashItems := hashItems - 1;
      if expanding && Masked(hv, hashpower - 1) >= expandBucket {
        UnlinkPrevious(before, found.item, Masked(hv, hashpower - 1), i);
      } else {
        UnlinkPrimary(before, found.item, Masked(hv, hashpower), i);
      }
    }

    method UnlinkPrimary(before: Link, it: Item, b: nat, ghost i: nat)
      requires Sound() && b < primary.Length == |pc| && i < |pc[b]| && pc[b][i] == it && it in next
      requires before == if i == 0 then Null else To(pc[b][i - 1])
      modifies this`next, this`items, this`pc, primary
      ensures Sound() && items == old(items) - {it}
    {
      hide Placed, Linked, SlotOf;
      ghost var ps, c := primary[..], pc[b];
      ChainsDisjoint(Home(), items, Shape(), pc, oc);
      TableUnlink(next, ps, pc, b, i);
      if expanding {
        TableElsewhere(next, previous[..], oc, c, i);
      }
      PlacedRemovePrimary(Home(), items, Shape(), pc, oc, b, i);
      hide Table;
      var nxt := next[it];
      next := next[it := Null];
      if before == Null {
        primary[b] := nxt;
      } else {
        next := next[before.item := nxt];
      }
      pc := pc[b := Without(c, i)];
      items := items - {it};
      assert next == NextAfter(old(next), c, i);
      assert primary[..] == ps[b := HeadAfter(old(next), ps[b], c, i)];
    }

    method UnlinkPrevious(before: Link, it: Item, b: nat, ghost i: nat)
      requires Sound() && expanding && b < previous.Length == |oc| && i < |oc[b]| && oc[b][i] == it && it in next
      requires before == if i == 0 then Null else To(oc[b][i - 1])
      modifies this`next, this`items, this`oc, previous
      ensures Sound() && items == old(items) - {it}
    {
      hide Placed, Linked, SlotOf;
      ghost var os, c := previous[..], oc[b];
      ChainsDisjoint(Home(), items, Shape(), pc, oc);
      TableUnlink(next, os, oc, b, i);
      TableElsewhere(next, primary[..], pc, c, i);
      PlacedRemovePrevious(Home(), items, Shape(), pc, oc, b, i);
      hide Table;
      var nxt := next[it];
      next := next[it := Null];
      if before == Null {
        previous[b] := nxt;
      } else {
        next := next[before.item := nxt];
      }
      oc := oc[b := Without(c, i)];
      items := items - {it};
      assert next == NextAfter(old(next), c, i);
      assert previous[..] == os[b := HeadAfter(old(next), os[b], c, i)];
    }

    /** `assoc_expand`, called only between expansions; if `calloc` fails the table stays as it is. */
    method Expand(calloc: bool)
      requires Valid() && !expanding
      modifies this
      ensures Valid() && items == old(items) && next == old(next) && startedExpanding == old(startedExpanding)
      ensures keyOf == old(keyOf)
      ensures Shape() == if calloc then Geometry(old(hashpower) + 1, true, 0) else old(Shape())
      ensures previous == old(primary) && (if calloc then fresh(primary) else primary == old(primary))
    {
      hide Linked, UniqueKeys, Pow2, SlotOf, Placed, Table;
      UnfoldPlaced();
      previous := primary;
      if calloc {
        PlacedExpand(Home(), items, Shape(), pc);
        var table := new Link[Pow2(hashpower + 1)](_ => Null);
        primary := table;
        hashpower := hashpower + 1;
        expanding := true;
        expandBucket := 0;
        oc := pc;
        pc := Empties(Pow2(hashpower));
        EmptyTable(next, primary[..]);
      }
    }

    /** The maintenance thread's inner loop: every item of one bucket moves to the new table, then the bucket is done. */
    method MoveBucket()
      requires Valid() && expanding
      modifies this, primary, previous
      ensures Valid() && primary == old(primary) && previous == old(previous)
      ensures items == old(items) && Shape() == Advanced(old(Shape()))
      ensures startedExpanding == old(startedExpanding) && keyOf == old(keyOf)
    {
      hide Placed, Linked, Distinct, Pow2, Table, Others, Moving, UniqueKeys;
      UnfoldPlaced();
      UnfoldTables();
      MoveItems();
      ghost var g := Shape();
      ghost var heads := previous[..];
      MovingEnds(Home(), items, g, pc, oc);
      previous[expandBucket] := Null;
      expandBucket := expandBucket + 1;
      BucketDone(next, heads, oc, g.moved);
      assert previous[..] == heads[g.moved := Null];
      oc := oc[g.moved := []];
      if expandBucket == Pow2(hashpower - 1) {
        expanding := false;
        oc := [];
      }
    }

    method MoveItems()
      requires Sound() && expanding
      modifies this`next, this`pc, primary
      ensures expandBucket < |oc| && Moving(Home(), items, Shape(), pc, oc, |oc[expandBucket]|)
      ensures Table(next, primary[..], pc) && Others(next, previous[..], oc, expandBucket)
      ensures previous[..] == old(previous[..])
    {
      UnfoldPlaced();
      UnfoldTables();
      hide Placed, Distinct, SlotOf, Pow2, Masked, Moving, Table, Others;
      ghost var g, c, heads := Shape(), oc[expandBucket], previous[..];
      MovingStarts(Home(), items, g, pc, oc);
      TableSplits(next, heads, oc, expandBucket);
      ghost var m := 0;
      var it := previous[expandBucket];
      assert c[0..] == c;
      while it != Null
        invariant 0 <= m <= |c| && Linked(next, it, c[m..])
        invariant Moving(Home(), items, g, pc, oc, m) && Table(next, primary[..], pc)
        invariant previous[..] == heads && Others(next, heads, oc, g.moved)
        decreases |c| - m
      {
        assert c[m..][0] == c[m];
        MovingBounds(Home(), items, g, pc, oc, m);
        assert primary.Length == |pc| by { TableLength(next, primary[..], pc); }
        MoveOne(Home(), items, g, next, primary[..], pc, heads, oc, m);
        var x := it.item;
        var nx := next[x];
        var bucket := Masked(hash(keyOf(x)), hashpower);
        ghost var ps := primary[..];
        next := next[x := primary[bucket]];
        primary[bucket] := To(x);
        assert primary[..] == ps[bucket := To(x)];
        pc := pc[bucket := [x] + pc[bucket]];
        it, m := nx, m + 1;
      }
    }

    /** One round of the maintenance thread: up to `bulk` buckets, or until the expansion is complete. */
    method Maintain(bulk: nat)
      requires Valid()
      modifies this, primary, previous
      ensures Valid() && primary == old(primary) && previous == old(previous) && items == old(items)
      ensures old(expanding) ==> (expanding <==> old(expandBucket) + bulk < Pow2(hashpower - 1))
      ensures expanding ==> expandBucket == old(expandBucket) + bulk
      ensures hashpower == old(hashpower) && (expanding ==> old(expanding))
      ensures startedExpanding == old(startedExpanding) && keyOf == old(keyOf)
    {
      hide Sound, Pow2;
      var ii := 0;
      UnfoldIfExpanding();
      while ii < bulk && expanding
        invariant Valid() && primary == old(primary) && previous == old(previous) && items == old(items)
        invariant startedExpanding == old(startedExpanding) && keyOf == old(keyOf)
        invariant ii <= bulk && hashpower == old(hashpower) && (expanding ==> old(expanding) && hashpower > 0)
        invariant expanding ==> expandBucket == old(expandBucket) + ii && expandBucket < Pow2(hashpower - 1)
        invariant old(expanding) && !expanding ==> old(expandBucket) + ii == Pow2(hashpower - 1) && hashpower > 0
      {
        MoveBucket();
        UnfoldIfExpanding();
        ii := ii + 1;
      }
    }

    /** Before the maintenance thread waits for the next request, it forgets the one it has served. */
    method Park()
      requires Valid() && !expanding
      modifies this`startedExpanding
      ensures Valid() && !startedExpanding
    {
      startedExpanding := false;
    }

    lemma UnfoldIfExpanding()
      requires Sound()
      ensures expanding ==> hashpower > 0 && expandBucket < Pow2(hashpower - 1)
    {
    }

    lemma UnfoldPlaced()
      requires Sound()
      ensures Shape().Proper() && |pc| == Pow2(hashpower)
      ensures |oc| == if expanding then Pow2(hashpower - 1) else 0
    {
    }

    lemma UnfoldTables()
      requires Sound()
      ensures primary.Length == |pc| && (expanding ==> previous.Length == |oc|)
    {
    }
  }
}
