/** Address ranges and lists of ranges: what the list nodes of the page pool stand for.
    `Cover` counts how many ranges of a list contain an address, so "the lists tile the
    pool" and "no two blocks overlap" are statements about one number. */
module Ranges {

  datatype Range = Range(base: int, size: int) {
    function End(): int { base + size }

    predicate Has(a: int) { base <= a < base + size }
  }

  /** How many ranges of `rs` contain address `a`. */
  function Cover(rs: seq<Range>, a: int): nat {
    if rs == [] then 0 else (if rs[0].Has(a) then 1 else 0) + Cover(rs[1..], a)
  }

  /** The canonical form of a free list: ascending, and no two neighbours touch. */
  ghost predicate Canonical(rs: seq<Range>) {
    && (forall i :: 0 <= i < |rs| ==> rs[i].size > 0)
    && (forall i, j :: 0 <= i < j < |rs| ==> rs[i].End() < rs[j].base)
  }

  ghost predicate AllPositive(rs: seq<Range>) {
    forall i :: 0 <= i < |rs| ==> rs[i].size > 0
  }

  predicate Disjoint(r: Range, s: Range) {
    r.End() <= s.base || s.End() <= r.base
  }

  ghost predicate PairwiseDisjoint(rs: seq<Range>) {
    forall i, j :: 0 <= i < j < |rs| ==> Disjoint(rs[i], rs[j])
  }

  ghost predicate SameCover(rs: seq<Range>, ss: seq<Range>) {
    forall a :: Cover(rs, a) == Cover(ss, a)
  }

  lemma {:induction false} CoverAppend(rs: seq<Range>, ss: seq<Range>, a: int)
    ensures Cover(rs + ss, a) == Cover(rs, a) + Cover(ss, a)
  {
    if rs == [] {
      assert rs + ss == ss;
    } else {
      assert (rs + ss)[1..] == rs[1..] + ss;
      CoverAppend(rs[1..], ss, a);
    }
  }

  lemma CoverOne(r: Range, a: int)
    ensures Cover([r], a) == if r.Has(a) then 1 else 0
  {
    assert Cover([r][1..], a) == 0;
  }

  /** `Cover` of a list split around position `k`. */
  lemma CoverSplit(rs: seq<Range>, k: nat, a: int)
    requires k < |rs|
    ensures Cover(rs, a) == Cover(rs[..k], a) + (if rs[k].Has(a) then 1 else 0) + Cover(rs[k + 1..], a)
  {
    assert rs == rs[..k] + ([rs[k]] + rs[k + 1..]);
    CoverAppend(rs[..k], [rs[k]] + rs[k + 1..], a);
    CoverAppend([rs[k]], rs[k + 1..], a);
    CoverOne(rs[k], a);
  }

  lemma CoverAtLeast(rs: seq<Range>, k: nat, a: int)
    requires k < |rs| && rs[k].Has(a)
    ensures Cover(rs, a) >= 1
  {
    CoverSplit(rs, k, a);
  }

  lemma {:induction false} CoverWitness(rs: seq<Range>, a: int) returns (k: nat)
    requires Cover(rs, a) >= 1
    ensures k < |rs| && rs[k].Has(a)
  {
    if rs[0].Has(a) {
      k := 0;
    } else {
      var j := CoverWitness(rs[1..], a);
      k := j + 1;
    }
  }

  /** In a list that covers no address twice, two ranges of positive size never overlap. */
  lemma CoverOnceDisjoint(rs: seq<Range>, i: nat, j: nat)
    requires i < j < |rs| && rs[i].size > 0 && rs[j].size > 0
    requires forall a :: Cover(rs, a) <= 1
    ensures Disjoint(rs[i], rs[j])
  {
    if !Disjoint(rs[i], rs[j]) {
      var a := if rs[i].base <= rs[j].base then rs[j].base else rs[i].base;
      CoverSplit(rs, i, a);
      assert rs[i + 1..][j - i - 1] == rs[j];
      CoverAtLeast(rs[i + 1..], j - i - 1, a);
    }
  }

  /** A canonical list covers exactly the addresses of its ranges, each once. */
  lemma {:induction false} CanonicalCover(rs: seq<Range>, a: int)
    requires Canonical(rs)
    ensures Cover(rs, a) <= 1
    ensures rs != [] && a < rs[0].base ==> Cover(rs, a) == 0
  {
    if rs != [] {
      CanonicalCover(rs[1..], a);
    }
  }

  lemma NextUncovered(rs: seq<Range>)
    requires Canonical(rs) && rs != []
    ensures Cover(rs, rs[0].End()) == 0
  {
    CanonicalCover(rs[1..], rs[0].End());
  }

  /** Two canonical lists with the same first range after the same covered set. */
  lemma SameHead(rs: seq<Range>, ss: seq<Range>)
    requires Canonical(rs) && Canonical(ss) && SameCover(rs, ss) && rs != [] && ss != []
    ensures rs[0] == ss[0]
  {
    CanonicalCover(ss, rs[0].base);
    CanonicalCover(rs, ss[0].base);
    assert Cover(rs, rs[0].base) >= 1 && Cover(ss, ss[0].base) >= 1;
    assert rs[0].base == ss[0].base;
    NextUncovered(rs);
    NextUncovered(ss);
    assert Cover(ss, rs[0].End()) == 0 && Cover(rs, ss[0].End()) == 0;
  }

  /** The canonical form is unique: the covered addresses determine the list. */
  lemma {:induction false} CanonicalUnique(rs: seq<Range>, ss: seq<Range>)
    requires Canonical(rs) && Canonical(ss) && SameCover(rs, ss)
    ensures rs == ss
  {
    assert ss != [] ==> Cover(rs, ss[0].base) >= 1;
    assert rs != [] ==> Cover(ss, rs[0].base) >= 1;
    if rs != [] {
      SameHead(rs, ss);
      forall a ensures Cover(rs[1..], a) == Cover(ss[1..], a) {
        assert Cover(rs, a) == Cover(ss, a);
      }
      CanonicalUnique(rs[1..], ss[1..]);
      assert rs == [rs[0]] + rs[1..];
      assert ss == [ss[0]] + ss[1..];
    }
  }

  /** A run of covered addresses lies inside one range of a canonical list. */
  lemma {:induction false} RunInOneRange(rs: seq<Range>, p: int, n: nat) returns (k: nat)
    requires Canonical(rs) && n > 0
    requires forall a :: p <= a < p + n ==> Cover(rs, a) >= 1
    ensures k < |rs| && rs[k].base <= p && p + n <= rs[k].End()
  {
    assert Cover(rs, p) >= 1;
    k := CoverWitness(rs, p);
    EndUncovered(rs, k);
  }

  lemma EndUncovered(rs: seq<Range>, k: nat)
    requires Canonical(rs) && k < |rs|
    ensures Cover(rs, rs[k].End()) == 0
  {
    if Cover(rs, rs[k].End()) >= 1 {
      var j := CoverWitness(rs, rs[k].End());
      assert false;
    }
  }

  lemma StartUncovered(rs: seq<Range>, k: nat)
    requires Canonical(rs) && k < |rs|
    ensures Cover(rs, rs[k].base - 1) == 0
  {
    if Cover(rs, rs[k].base - 1) >= 1 {
      var j := CoverWitness(rs, rs[k].base - 1);
      assert false;
    }
  }
}
