/** Index arithmetic of the 4-level page map (src/drivers/mmu.c, src/drivers/mmu_reg.h; Intel SDM volume 3A,
    section 4.5).

    A virtual page number v has 36 bits, nine for each level. The table of depth d on the path of v is named by
    the 9 * d high bits of v, its prefix; depth 0 is the root and depth 4 stands for the pages themselves. */
module Paging {

  /** The table of depth d whose pages all have prefix p. */
  datatype Key = Key(d: nat, p: nat)

  const ROOT := Key(0, 0)

  function Prefix(d: nat, v: nat): (p: nat)
    requires d <= 4
  {
    if d == 4 then v
    else if d == 3 then v / 512
    else if d == 2 then v / 0x4_0000
    else if d == 1 then v / 0x800_0000
    else v / 0x10_0000_0000
  }

  /** The first page whose depth-d prefix is p. */
  function FirstPage(d: nat, p: nat): (v: nat)
    requires d <= 4
  {
    if d == 4 then p
    else if d == 3 then 512 * p
    else if d == 2 then 0x4_0000 * p
    else if d == 1 then 0x800_0000 * p
    else 0x10_0000_0000 * p
  }

  /** The slot of v's path in its table of depth d. */
  function Index(d: nat, v: nat): (i: nat)
    requires d <= 3
    ensures i < 512
  {
    Prefix(d + 1, v) % 512
  }

  function Child(k: Key, i: nat): Key {
    Key(k.d + 1, 512 * k.p + i)
  }

  function Parent(k: Key): Key
    requires k.d > 0
  {
    Key(k.d - 1, k.p / 512)
  }

  lemma ParentOfChild(k: Key, i: nat)
    requires i < 512
    ensures Parent(Child(k, i)) == k && Child(k, i).p % 512 == i
  {
  }

  lemma ChildOfParent(k: Key)
    requires k.d > 0
    ensures Child(Parent(k), k.p % 512) == k
  {
  }

  lemma PrefixStep(d: nat, v: nat)
    requires d <= 3
    ensures Prefix(d, v) == Prefix(d + 1, v) / 512
    ensures Prefix(d + 1, v) == 512 * Prefix(d, v) + Index(d, v)
  {
  }

  /** Prefixes cut the page numbers into consecutive blocks. */
  lemma InBlock(d: nat, p: nat, v: nat)
    requires d <= 4
    ensures Prefix(d, v) == p <==> FirstPage(d, p) <= v < FirstPage(d, p + 1)
  {
  }

  lemma PrefixMonotone(d: nat, u: nat, v: nat)
    requires d <= 4 && u <= v
    ensures Prefix(d, u) <= Prefix(d, v)
    ensures v == u + 1 ==> Prefix(d, v) <= Prefix(d, u) + 1
  {
  }

  lemma FirstPageMonotone(d: nat, p: nat, q: nat)
    requires d <= 4 && p <= q
    ensures FirstPage(d, p) <= FirstPage(d, q)
  {
  }

  lemma FirstPageDown(d: nat, p: nat)
    requires d <= 3
    ensures FirstPage(d, p) == FirstPage(d + 1, 512 * p)
    ensures FirstPage(d, p + 1) == FirstPage(d + 1, 512 * p + 512)
  {
  }

  /** Some page of [a, b) has prefix k.p. */
  ghost predicate Meets(k: Key, a: nat, b: nat) {
    k.d <= 4 && a < b && Prefix(k.d, a) <= k.p <= Prefix(k.d, b - 1)
  }

  lemma MeetsWitness(k: Key, a: nat, b: nat) returns (v: nat)
    requires Meets(k, a, b)
    ensures a <= v < b && Prefix(k.d, v) == k.p
  {
    v := if FirstPage(k.d, k.p) < a then a else FirstPage(k.d, k.p);
    InBlock(k.d, k.p, v);
    InBlock(k.d, Prefix(k.d, a), a);
    InBlock(k.d, Prefix(k.d, b - 1), b - 1);
    if k.p > Prefix(k.d, a) { FirstPageMonotone(k.d, Prefix(k.d, a) + 1, k.p); }
    FirstPageMonotone(k.d, k.p, Prefix(k.d, b - 1));
    FirstPageGrows(k.d, k.p);
  }

  lemma FirstPageGrows(d: nat, p: nat)
    requires d <= 4
    ensures FirstPage(d, p) < FirstPage(d, p + 1)
  {
  }

  lemma WitnessMeets(d: nat, v: nat, a: nat, b: nat)
    requires d <= 4
    ensures a <= v < b ==> Meets(Key(d, Prefix(d, v)), a, b)
  {
    hide Prefix;
    if a <= v < b {
      PrefixMonotone(d, a, v);
      PrefixMonotone(d, v, b - 1);
    }
  }

  /** Cutting a range in two cuts the blocks it meets. */
  lemma MeetsSplit(k: Key, a: nat, c: nat, b: nat)
    requires a <= c <= b
    ensures Meets(k, a, b) <==> Meets(k, a, c) || Meets(k, c, b)
  {
    hide Prefix;
    if k.d <= 4 && a < c < b {
      SplitPrefixes(k.d, a, c, b);
    }
  }

  lemma SplitPrefixes(d: nat, a: nat, c: nat, b: nat)
    requires d <= 4 && a < c < b
    ensures Prefix(d, a) <= Prefix(d, c - 1) <= Prefix(d, c) <= Prefix(d, c - 1) + 1
    ensures Prefix(d, c) <= Prefix(d, b - 1)
  {
  }

  /** The names of the tables below depth d that some page of [a, b) needs. */
  ghost function Needed(d: nat, a: nat, b: nat): (ks: set<Key>)
    ensures forall k :: k in ks <==> d < k.d <= 3 && Meets(k, a, b)
  {
    if a < b then
      set e: nat, q: nat | d < e <= 3 && Prefix(e, a) <= q <= Prefix(e, b - 1) :: Key(e, q)
    else {}
  }

  lemma NeededSplit(d: nat, a: nat, c: nat, b: nat)
    requires a <= c <= b
    ensures Needed(d, a, b) == Needed(d, a, c) + Needed(d, c, b)
  {
    forall k ensures k in Needed(d, a, b) <==> k in Needed(d, a, c) + Needed(d, c, b) {
      MeetsSplit(k, a, c, b);
    }
  }

  /** Inside the block of one table of depth d + 1, that table is all that the next depth does not cover. */
  lemma NeededBlock(d: nat, q: nat, a: nat, b: nat)
    requires d <= 2 && a < b && Prefix(d + 1, a) == q && Prefix(d + 1, b - 1) == q
    ensures Needed(d, a, b) == Needed(d + 1, a, b) + {Key(d + 1, q)}
  {
  }

}
