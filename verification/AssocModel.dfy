/** The server's hash table (assoc.c): where an item belongs while the table grows one bucket at a time. */
module AssocModel {
  import opened Bits
  import opened Words
  import opened Sequences

  /** The address of an item, and the possibly null pointer to one. */
  type Item = nat
  datatype Link = Null | To(item: Item)

  type Key = seq<Byte>

  /** A place in the table being filled, or in the previous one that is being emptied. */
  datatype Slot = Primary(bucket: nat) | Previous(bucket: nat)

  /** `hashpower`, `expanding` and `expand_bucket`. */
  datatype Geometry = Geometry(power: nat, expanding: bool, moved: nat) {
    predicate Proper() {
      expanding ==> power > 0 && moved < Pow2(power - 1)
    }
  }

  /** `hv & hashmask(n)`. */
  function Masked(hv: nat, n: nat): (b: nat)
    ensures b < Pow2(n) && b == hv % Pow2(n)
  {
    LowMask(hv, n);
    And(hv, Pow2(n) - 1)
  }

  /** The bucket `assoc_find`, `_hashitem_before` and `assoc_insert` all look in. */
  function SlotOf(g: Geometry, hv: nat): Slot
    requires g.Proper()
  {
    if g.expanding && Masked(hv, g.power - 1) >= g.moved then Previous(Masked(hv, g.power - 1))
    else Primary(Masked(hv, g.power))
  }

  // ---------------------------------------------------------------- chains through h_next

  /** Following `h_next` from `head` visits exactly the items of `c`, in order. */
  ghost predicate Linked(next: map<Item, Link>, head: Link, c: seq<Item>)
    decreases |c|
  {
    if c == [] then head == Null
    else head == To(c[0]) && c[0] in next && Linked(next, next[c[0]], c[1..])
  }

  lemma {:induction false} LinkedFrame(next: map<Item, Link>, next': map<Item, Link>, head: Link, c: seq<Item>)
    requires Linked(next, head, c)
    requires forall x :: x in c ==> x in next' && (x in next ==> next'[x] == next[x])
    ensures Linked(next', head, c)
    decreases |c|
  {
    if c == [] {
    } else {
      LinkedFrame(next, next', next[c[0]], c[1..]);
    }
  }

  lemma {:induction false} LinkedFrom(next: map<Item, Link>, head: Link, c: seq<Item>, i: nat)
    requires Linked(next, head, c) && i < |c|
    ensures c[i] in next && Linked(next, To(c[i]), c[i..]) && Linked(next, next[c[i]], c[i + 1..])
    decreases i
  {
    if i == 0 {
      assert c[0..] == c;
    } else {
      LinkedFrom(next, next[c[0]], c[1..], i - 1);
      assert c[1..][i - 1..] == c[i..] && c[1..][i..] == c[i + 1..];
    }
  }

  /** A chain with its `i`-th item taken out. */
  function Without(c: seq<Item>, i: nat): seq<Item>
    requires i < |c|
  {
    c[..i] + c[i + 1..]
  }

  lemma WithoutMembers(c: seq<Item>, i: nat)
    requires i < |c| && Distinct(c)
    ensures Distinct(Without(c, i)) && c[i] !in Without(c, i)
    ensures forall x :: x in Without(c, i) <==> x in c && x != c[i]
  {
    assert c == c[..i] + [c[i]] + c[i + 1..];
  }

  /** Unlinking: the pointer before item `i` is redirected past it. */
  lemma {:induction false} Unlinked(next: map<Item, Link>, next': map<Item, Link>, head: Link, head': Link, c: seq<Item>, i: nat)
    requires Linked(next, head, c) && Distinct(c) && i < |c|
    requires forall x :: x in c ==> x in next'
    requires forall j :: 0 <= j < |c| && j != i && j + 1 != i && c[j] in next ==> next'[c[j]] == next[c[j]]
    requires c[i] in next
    requires i == 0 ==> head' == next[c[0]]
    requires i > 0 ==> head' == head && next'[c[i - 1]] == next[c[i]]
    ensures Linked(next', head', Without(c, i))
    decreases i
  {
    if i == 0 {
      assert Without(c, 0) == c[1..];
      LinkedFrame(next, next', next[c[0]], c[1..]);
    } else {
      assert Without(c, i) == [c[0]] + Without(c[1..], i - 1);
      if i == 1 {
        LinkedFrom(next, head, c, 1);
        assert Without(c[1..], 0) == c[2..];
        LinkedFrame(next, next', next[c[1]], c[2..]);
      } else {
        Unlinked(next, next', next[c[0]], next[c[0]], c[1..], i - 1);
      }
    }
  }

  // ---------------------------------------------------------------- a table of chains

  ghost predicate Table(next: map<Item, Link>, heads: seq<Link>, chains: seq<seq<Item>>) {
    && |heads| == |chains|
    && (forall b :: 0 <= b < |chains| ==> Linked(next, heads[b], chains[b]))
    && (forall b :: 0 <= b < |chains| ==> Distinct(chains[b]))
  }

  lemma TableFrame(next: map<Item, Link>, next': map<Item, Link>, heads: seq<Link>, chains: seq<seq<Item>>)
    requires Table(next, heads, chains)
    requires forall b, x :: 0 <= b < |chains| && x in chains[b] ==> x in next' && (x in next ==> next'[x] == next[x])
    ensures Table(next', heads, chains)
  {
    forall b | 0 <= b < |chains|
      ensures Linked(next', heads[b], chains[b])
    {
      LinkedFrame(next, next', heads[b], chains[b]);
    }
  }

  /** Inserting at the head of bucket `b`: `it->h_next = table[b]; table[b] = it`. */
  lemma TablePush(next: map<Item, Link>, heads: seq<Link>, chains: seq<seq<Item>>, b: nat, it: Item)
    requires Table(next, heads, chains) && b < |chains|
    requires forall a :: 0 <= a < |chains| ==> it !in chains[a]
    ensures Table(next[it := heads[b]], heads[b := To(it)], chains[b := [it] + chains[b]])
  {
    TableKnown(next, heads, chains);
    TableFrame(next, next[it := heads[b]], heads, chains);
    var c := [it] + chains[b];
    assert c[1..] == chains[b];
  }

  ghost predicate Known(next: map<Item, Link>, chains: seq<seq<Item>>) {
    forall b, x :: 0 <= b < |chains| && x in chains[b] ==> x in next
  }

  lemma {:induction false} LinkedKnown(next: map<Item, Link>, head: Link, c: seq<Item>)
    requires Linked(next, head, c)
    ensures forall x :: x in c ==> x in next
    decreases |c|
  {
    if c == [] {
    } else {
      LinkedKnown(next, next[c[0]], c[1..]);
      assert c == [c[0]] + c[1..];
    }
  }

  lemma TableKnown(next: map<Item, Link>, heads: seq<Link>, chains: seq<seq<Item>>)
    requires Table(next, heads, chains)
    ensures Known(next, chains)
  {
    forall b | 0 <= b < |chains|
      ensures forall x :: x in chains[b] ==> x in next
    {
      LinkedKnown(next, heads[b], chains[b]);
    }
  }

  /** `nxt = (*before)->h_next; (*before)->h_next = 0; *before = nxt`, as far as it concerns `h_next` fields. */
  function NextAfter(next: map<Item, Link>, c: seq<Item>, i: nat): map<Item, Link>
    requires i < |c| && c[i] in next
  {
    var cut := next[c[i] := Null];
    if i == 0 then cut else cut[c[i - 1] := next[c[i]]]
  }

  function HeadAfter(next: map<Item, Link>, head: Link, c: seq<Item>, i: nat): Link
    requires i < |c| && c[i] in next
  {
    if i == 0 then next[c[0]] else head
  }

  lemma TableElsewhere(next: map<Item, Link>, heads: seq<Link>, chains: seq<seq<Item>>, c: seq<Item>, i: nat)
    requires Table(next, heads, chains) && i < |c| && c[i] in next
    requires forall a, x :: 0 <= a < |chains| && x in chains[a] ==> x !in c
    ensures Table(NextAfter(next, c, i), heads, chains)
  {
    TableKnown(next, heads, chains);
    assert c[i] in c && (i > 0 ==> c[i - 1] in c);
    TableFrame(next, NextAfter(next, c, i), heads, chains);
  }

  lemma TableUnlink(next: map<Item, Link>, heads: seq<Link>, chains: seq<seq<Item>>, b: nat, i: nat)
    requires Table(next, heads, chains) && b < |chains| && i < |chains[b]| && chains[b][i] in next
    requires forall a, x :: 0 <= a < |chains| && a != b && x in chains[a] ==> x !in chains[b]
    ensures var c := chains[b];
            Table(NextAfter(next, c, i), heads[b := HeadAfter(next, heads[b], c, i)], chains[b := Without(c, i)])
  {
    var c := chains[b];
    var next' := NextAfter(next, c, i);
    TableKnown(next, heads, chains);
    WithoutMembers(c, i);
    assert c[i] in c && (i > 0 ==> c[i - 1] in c);
    Unlinked(next, next', heads[b], HeadAfter(next, heads[b], c, i), c, i);
    forall a | 0 <= a < |chains| && a != b
      ensures Linked(next', heads[a], chains[a])
    {
      LinkedFrame(next, next', heads[a], chains[a]);
    }
  }

  // ---------------------------------------------------------------- items where lookups expect them

  /** The hash values of the items: `hash(ITEM_key(it), it->nkey)`. */
  type Hashing = Item -> nat

  /** Every linked item is in the chain of the slot it hashes to under the current geometry, and chains hold nothing else. */
  ghost predicate Placed(home: Hashing, items: set<Item>, g: Geometry, pc: seq<seq<Item>>, oc: seq<seq<Item>>) {
    && g.Proper()
    && |pc| == Pow2(g.power)
    && |oc| == (if g.expanding then Pow2(g.power - 1) else 0)
    && (forall b, x :: 0 <= b < |pc| ==> (x in pc[b] <==> x in items && SlotOf(g, home(x)) == Primary(b)))
    && (forall b, x :: 0 <= b < |oc| ==> (x in oc[b] <==> x in items && SlotOf(g, home(x)) == Previous(b)))
  }

  /** A slot that a hash value maps to exists. */
  lemma SlotExists(g: Geometry, hv: nat)
    requires g.Proper()
    ensures match SlotOf(g, hv)
            case Primary(b) => b < Pow2(g.power)
            case Previous(b) => g.expanding && g.moved <= b < Pow2(g.power - 1)
  {
  }

  lemma NotListed(home: Hashing, items: set<Item>, g: Geometry, pc: seq<seq<Item>>, oc: seq<seq<Item>>, it: Item)
    requires Placed(home, items, g, pc, oc) && it !in items
    ensures forall b :: 0 <= b < |pc| ==> it !in pc[b]
    ensures forall b :: 0 <= b < |oc| ==> it !in oc[b]
  {
    hide SlotOf;
  }

  /** An item is in one chain only. */
  lemma ChainsDisjoint(home: Hashing, items: set<Item>, g: Geometry, pc: seq<seq<Item>>, oc: seq<seq<Item>>)
    requires Placed(home, items, g, pc, oc)
    ensures forall a, b, x :: 0 <= a < |pc| && 0 <= b < |pc| && a != b && x in pc[a] ==> x !in pc[b]
    ensures forall a, b, x :: 0 <= a < |oc| && 0 <= b < |oc| && a != b && x in oc[a] ==> x !in oc[b]
    ensures forall a, b, x :: 0 <= a < |pc| && 0 <= b < |oc| && x in pc[a] ==> x !in oc[b]
    ensures forall a, b, x :: 0 <= a < |oc| && 0 <= b < |pc| && x in oc[a] ==> x !in pc[b]
  {
    hide SlotOf;
    forall a, b, x | 0 <= a < |pc| && 0 <= b < |pc| && x in pc[a] && x in pc[b]
      ensures a == b
    {
      assert Primary(a) == SlotOf(g, home(x)) == Primary(b);
    }
    forall a, b, x | 0 <= a < |oc| && 0 <= b < |oc| && x in oc[a] && x in oc[b]
      ensures a == b
    {
      assert Previous(a) == SlotOf(g, home(x)) == Previous(b);
    }
    forall a, b, x | 0 <= a < |pc| && 0 <= b < |oc| && x in pc[a]
      ensures x !in oc[b]
    {
      assert SlotOf(g, home(x)) == Primary(a);
    }
  }

  /** A write to the `h_next` of an item in no chain disturbs none. */
  lemma TableIgnores(next: map<Item, Link>, heads: seq<Link>, chains: seq<seq<Item>>, it: Item, l: Link)
    requires Table(next, heads, chains)
    requires forall b :: 0 <= b < |chains| ==> it !in chains[b]
    ensures Table(next[it := l], heads, chains)
  {
    TableKnown(next, heads, chains);
    TableFrame(next, next[it := l], heads, chains);
  }

  lemma PlacedPushPrimary(home: Hashing, items: set<Item>, g: Geometry, pc: seq<seq<Item>>, oc: seq<seq<Item>>, it: Item, b: nat)
    requires Placed(home, items, g, pc, oc) && it !in items && b < |pc| && SlotOf(g, home(it)) == Primary(b)
    ensures Placed(home, items + {it}, g, pc[b := [it] + pc[b]], oc)
  {
    hide SlotOf;
  }

  lemma PlacedPushPrevious(home: Hashing, items: set<Item>, g: Geometry, pc: seq<seq<Item>>, oc: seq<seq<Item>>, it: Item, b: nat)
    requires Placed(home, items, g, pc, oc) && it !in items && b < |oc| && SlotOf(g, home(it)) == Previous(b)
    ensures Placed(home, items + {it}, g, pc, oc[b := [it] + oc[b]])
  {
    hide SlotOf;
  }

  lemma PlacedRemovePrimary(home: Hashing, items: set<Item>, g: Geometry, pc: seq<seq<Item>>, oc: seq<seq<Item>>, b: nat, i: nat)
    requires Placed(home, items, g, pc, oc) && b < |pc| && i < |pc[b]| && Distinct(pc[b])
    ensures Placed(home, items - {pc[b][i]}, g, pc[b := Without(pc[b], i)], oc)
  {
    hide SlotOf, Without, Distinct;
    WithoutMembers(pc[b], i);
    var it := pc[b][i];
    assert it in pc[b] && SlotOf(g, home(it)) == Primary(b);
    var pc' := pc[b := Without(pc[b], i)];
    assert forall a, x :: 0 <= a < |pc| ==> (x in pc'[a] <==> x in pc[a] && x != it);
  }

  lemma PlacedRemovePrevious(home: Hashing, items: set<Item>, g: Geometry, pc: seq<seq<Item>>, oc: seq<seq<Item>>, b: nat, i: nat)
    requires Placed(home, items, g, pc, oc) && b < |oc| && i < |oc[b]| && Distinct(oc[b])
    ensures Placed(home, items - {oc[b][i]}, g, pc, oc[b := Without(oc[b], i)])
  {
    hide SlotOf, Without, Distinct;
    WithoutMembers(oc[b], i);
    var it := oc[b][i];
    assert it in oc[b] && SlotOf(g, home(it)) == Previous(b);
    var oc' := oc[b := Without(oc[b], i)];
    assert forall a, x :: 0 <= a < |oc| ==> (x in oc'[a] <==> x in oc[a] && x != it);
  }

  /** The key of an item that is not linked does not matter. */
  lemma PlacedRehash(home: Hashing, home': Hashing, items: set<Item>, g: Geometry, pc: seq<seq<Item>>, oc: seq<seq<Item>>)
    requires Placed(home, items, g, pc, oc) && forall x :: x in items ==> home'(x) == home(x)
    ensures Placed(home', items, g, pc, oc)
  {
    hide SlotOf;
  }

  function Empties(n: nat): (cs: seq<seq<Item>>)
    ensures |cs| == n && forall b :: 0 <= b < n ==> cs[b] == []
  {
    seq(n, _ => [])
  }

  /** Starting an expansion moves no item: what was in the primary table is now expected in the previous one. */
  lemma PlacedExpand(home: Hashing, items: set<Item>, g: Geometry, pc: seq<seq<Item>>)
    requires Placed(home, items, g, pc, []) && !g.expanding
    ensures Placed(home, items, Geometry(g.power + 1, true, 0), Empties(Pow2(g.power + 1)), pc)
  {
  }

  // ---------------------------------------------------------------- moving one bucket

  /** As `Placed`, but the first `m` items of the bucket being moved are already in the primary table. */
  ghost predicate Moving(home: Hashing, items: set<Item>, g: Geometry, pc: seq<seq<Item>>, oc: seq<seq<Item>>, m: nat) {
    && g.Proper() && g.expanding
    && |pc| == Pow2(g.power) && |oc| == Pow2(g.power - 1)
    && m <= |oc[g.moved]|
    && (forall b, x :: 0 <= b < |pc| ==>
          (x in pc[b] <==> x in items && (SlotOf(g, home(x)) == Primary(b)
                                          || (x in oc[g.moved][..m] && Masked(home(x), g.power) == b))))
    && (forall b, x :: 0 <= b < |oc| ==> (x in oc[b] <==> x in items && SlotOf(g, home(x)) == Previous(b)))
  }

  lemma MovingStarts(home: Hashing, items: set<Item>, g: Geometry, pc: seq<seq<Item>>, oc: seq<seq<Item>>)
    requires Placed(home, items, g, pc, oc) && g.expanding
    ensures Moving(home, items, g, pc, oc, 0)
  {
    hide SlotOf, Masked;
  }

  /** The item about to move is in no chain of the primary table. */
  lemma MovingFresh(home: Hashing, items: set<Item>, g: Geometry, pc: seq<seq<Item>>, oc: seq<seq<Item>>, m: nat)
    requires Moving(home, items, g, pc, oc, m) && m < |oc[g.moved]| && Distinct(oc[g.moved])
    ensures forall b :: 0 <= b < |pc| ==> oc[g.moved][m] !in pc[b]
  {
    hide SlotOf, Masked;
    var c := oc[g.moved];
    assert c[m] in c;
    assert c[m] !in c[..m];
  }

  lemma MovingStep(home: Hashing, items: set<Item>, g: Geometry, pc: seq<seq<Item>>, oc: seq<seq<Item>>, m: nat, b: nat)
    requires Moving(home, items, g, pc, oc, m) && m < |oc[g.moved]|
    requires b == Masked(home(oc[g.moved][m]), g.power)
    ensures Moving(home, items, g, pc[b := [oc[g.moved][m]] + pc[b]], oc, m + 1)
  {
    hide SlotOf, Masked;
    var c := oc[g.moved];
    assert c[m] in c;
    assert c[..m + 1] == c[..m] + [c[m]];
  }

  /** The chains of the previous table other than the one being moved. */
  ghost predicate Others(next: map<Item, Link>, heads: seq<Link>, oc: seq<seq<Item>>, e: nat) {
    && |heads| == |oc| && e < |oc|
    && (forall b :: 0 <= b < |oc| && b != e ==> Linked(next, heads[b], oc[b]))
    && (forall b :: 0 <= b < |oc| ==> Distinct(oc[b]))
  }

  lemma OthersFrame(next: map<Item, Link>, heads: seq<Link>, oc: seq<seq<Item>>, e: nat, it: Item, l: Link)
    requires Others(next, heads, oc, e)
    requires forall b :: 0 <= b < |oc| && b != e ==> it !in oc[b]
    ensures Others(next[it := l], heads, oc, e)
  {
    forall b | 0 <= b < |oc| && b != e
      ensures Linked(next[it := l], heads[b], oc[b])
    {
      LinkedKnown(next, heads[b], oc[b]);
      LinkedFrame(next, next[it := l], heads[b], oc[b]);
    }
  }

  /** One pass of the move: the item leaves the front of the old chain and becomes the head of its new one. */
  lemma MoveOne(home: Hashing, items: set<Item>, g: Geometry, next: map<Item, Link>, heads: seq<Link>, pc: seq<seq<Item>>,
                oheads: seq<Link>, oc: seq<seq<Item>>, m: nat)
    requires Moving(home, items, g, pc, oc, m) && m < |oc[g.moved]|
    requires Table(next, heads, pc) && Others(next, oheads, oc, g.moved)
    requires Linked(next, To(oc[g.moved][m]), oc[g.moved][m..])
    ensures var x := oc[g.moved][m];
            var b := Masked(home(x), g.power);
            var next' := next[x := heads[b]];
            && Moving(home, items, g, pc[b := [x] + pc[b]], oc, m + 1)
            && Table(next', heads[b := To(x)], pc[b := [x] + pc[b]])
            && Others(next', oheads, oc, g.moved)
            && x in next && Linked(next', next[x], oc[g.moved][m + 1..])
  {
    hide SlotOf;
    var c := oc[g.moved];
    var x := c[m];
    var b := Masked(home(x), g.power);
    MovingFresh(home, items, g, pc, oc, m);
    MovingStep(home, items, g, pc, oc, m, b);
    TablePush(next, heads, pc, b, x);
    assert x in c;
    forall a | 0 <= a < |oc| && a != g.moved
      ensures x !in oc[a]
    {
      assert SlotOf(g, home(x)) == Previous(g.moved);
    }
    OthersFrame(next, oheads, oc, g.moved, x, heads[b]);
    assert c[m..][1..] == c[m + 1..];
    LinkedKnown(next, next[x], c[m + 1..]);
    LinkedFrame(next, next[x := heads[b]], next[x], c[m + 1..]);
  }

  lemma MovingBounds(home: Hashing, items: set<Item>, g: Geometry, pc: seq<seq<Item>>, oc: seq<seq<Item>>, m: nat)
    requires Moving(home, items, g, pc, oc, m)
    ensures g.Proper() && g.expanding && |pc| == Pow2(g.power) && g.moved < |oc| && m <= |oc[g.moved]|
  {
  }

  lemma TableLength(next: map<Item, Link>, heads: seq<Link>, chains: seq<seq<Item>>)
    requires Table(next, heads, chains)
    ensures |heads| == |chains|
  {
  }

  lemma TableSplits(next: map<Item, Link>, heads: seq<Link>, oc: seq<seq<Item>>, e: nat)
    requires Table(next, heads, oc) && e < |oc|
    ensures Others(next, heads, oc, e) && Linked(next, heads[e], oc[e])
  {
  }

  lemma BucketDone(next: map<Item, Link>, heads: seq<Link>, oc: seq<seq<Item>>, e: nat)
    requires Others(next, heads, oc, e)
    ensures Table(next, heads[e := Null], oc[e := []])
  {
  }

  lemma EmptyTable(next: map<Item, Link>, heads: seq<Link>)
    requires forall b :: 0 <= b < |heads| ==> heads[b] == Null
    ensures Table(next, heads, Empties(|heads|))
  {
  }

  /** `expand_bucket++`, and the end of the expansion after the last bucket. */
  function Advanced(g: Geometry): (r: Geometry)
    requires g.Proper() && g.expanding
    ensures r.Proper()
  {
    if g.moved + 1 == Pow2(g.power - 1) then Geometry(g.power, false, g.moved + 1)
    else Geometry(g.power, true, g.moved + 1)
  }

  lemma SlotAdvances(g: Geometry, hv: nat)
    requires g.Proper() && g.expanding
    ensures SlotOf(Advanced(g), hv) ==
              if SlotOf(g, hv) == Previous(g.moved) then Primary(Masked(hv, g.power)) else SlotOf(g, hv)
  {
    hide And, Pow2;
  }

  lemma MovingEnds(home: Hashing, items: set<Item>, g: Geometry, pc: seq<seq<Item>>, oc: seq<seq<Item>>)
    requires g.moved < |oc| && Moving(home, items, g, pc, oc, |oc[g.moved]|)
    ensures Placed(home, items, Advanced(g), pc, if Advanced(g).expanding then oc[g.moved := []] else [])
  {
    hide SlotOf, Masked;
    var c := oc[g.moved];
    assert c[..|c|] == c;
    forall x
      ensures SlotOf(Advanced(g), home(x)) ==
                if SlotOf(g, home(x)) == Previous(g.moved) then Primary(Masked(home(x), g.power)) else SlotOf(g, home(x))
    {
      SlotAdvances(g, home(x));
    }
    if !Advanced(g).expanding {
      forall x | x in items
        ensures SlotOf(Advanced(g), home(x)).Primary?
      {
        SlotExists(Advanced(g), home(x));
      }
    }
  }
}
