/** The bit ranges of a register's fields: which lists the map compiler accepts, and when the
    masks it generates for them are disjoint. */
module FieldRanges {
  import opened Words
  import opened Wrappers

  /** The forms of a `range`: the word "any", one bit, or "hi..lo". */
  datatype Range = AnyRange | OneBit(bit: nat) | Span(hi: nat, lo: nat)

  datatype RangeError = WrongOrderInField(at: nat) | WrongOrderOfFields(at: nat)

  /** The `hi` and `lo` that the compiler sets; "any" gets -1 and 0. */
  datatype Bounds = Bounds(hi: int, lo: nat)

  const LOWEST := 256

  function BoundsOf(r: Range): Bounds {
    match r
    case AnyRange => Bounds(-1, 0)
    case OneBit(bit) => Bounds(bit, bit)
    case Span(hi, lo) => Bounds(hi, lo)
  }

  function AllBounds(rs: seq<Range>): (bs: seq<Bounds>)
    ensures |bs| == |rs| && forall i :: 0 <= i < |rs| ==> bs[i] == BoundsOf(rs[i])
  {
    seq(|rs|, i requires 0 <= i < |rs| => BoundsOf(rs[i]))
  }

  /** The bound that the low end of the next range has to stay below. */
  function LowestOf(rs: seq<Range>): nat {
    if rs == [] then LOWEST
    else if rs[|rs| - 1].AnyRange? then LowestOf(rs[..|rs| - 1])
    else BoundsOf(rs[|rs| - 1]).lo
  }

  /** The range at `k` is the right way round, and below every range before it. */
  ghost predicate InOrder(rs: seq<Range>, k: nat)
    requires k < |rs|
  {
    !rs[k].AnyRange? ==>
      && BoundsOf(rs[k]).lo <= BoundsOf(rs[k]).hi && BoundsOf(rs[k]).lo < LOWEST
      && forall i :: 0 <= i < k && !rs[i].AnyRange? ==> BoundsOf(rs[k]).lo < BoundsOf(rs[i]).lo
  }

  ghost predicate AllInOrder(rs: seq<Range>) {
    forall k :: 0 <= k < |rs| ==> InOrder(rs, k)
  }

  /** In an ordered list the last low end is the least one. */
  lemma {:induction false} LowestIsLeast(rs: seq<Range>, low: nat)
    requires AllInOrder(rs)
    ensures low < LowestOf(rs)
            <==> low < LOWEST && forall i :: 0 <= i < |rs| && !rs[i].AnyRange? ==> low < BoundsOf(rs[i]).lo
  {
    if rs != [] {
      var front, last := rs[..|rs| - 1], rs[|rs| - 1];
      assert rs == front + [last];
      forall k | 0 <= k < |front| ensures InOrder(front, k) {
        assert InOrder(rs, k);
      }
      assert InOrder(rs, |rs| - 1);
      if last.AnyRange? {
        LowestIsLeast(front, low);
      }
    }
  }

  /** generate_bitfields: the bounds of all fields, or the field at which the program ends. */
  method GenerateBitfields(rs: seq<Range>) returns (res: Result<seq<Bounds>, RangeError>)
    ensures res.Ok? <==> AllInOrder(rs)
    ensures res.Ok? ==> res.value == AllBounds(rs)
    ensures res.Err? ==>
      && res.error.at < |rs| && AllInOrder(rs[..res.error.at]) && !InOrder(rs, res.error.at)
      && (res.error.WrongOrderInField? <==> BoundsOf(rs[res.error.at]).lo > BoundsOf(rs[res.error.at]).hi)
  {
    var bitfields: seq<Bounds> := [];
    var lowest := LOWEST;
    for k := 0 to |rs|
      invariant bitfields == AllBounds(rs)[..k]
      invariant lowest == LowestOf(rs[..k]) && AllInOrder(rs[..k])
    {
      var bf := BoundsOf(rs[k]);
      assert rs[..k + 1][..k] == rs[..k];
      LowestIsLeast(rs[..k], bf.lo);
      OrderGrows(rs, k);
      if !rs[k].AnyRange? {
        if bf.lo > bf.hi {
          return Err(WrongOrderInField(k));
        }
        if bf.lo < lowest {
          lowest := bf.lo;
        } else {
          return Err(WrongOrderOfFields(k));
        }
      }
      bitfields := bitfields + [bf];
    }
    assert rs[..|rs|] == rs;
    res := Ok(bitfields);
  }

  lemma OrderGrows(rs: seq<Range>, k: nat)
    requires k < |rs| && AllInOrder(rs[..k])
    ensures AllInOrder(rs[..k + 1]) <==> InOrder(rs, k)
    ensures !InOrder(rs, k) ==> !AllInOrder(rs)
  {
    var longer := rs[..k + 1];
    assert InOrder(longer, k) <==> InOrder(rs, k);
    forall i | 0 <= i < k ensures InOrder(longer, i) {
      assert InOrder(rs[..k], i);
    }
  }

  /** The mask generated for a field; "any" has none. */
  function MaskOf(b: Bounds): nat {
    if b.lo <= b.hi then CMask(b.hi, b.lo) else 0
  }

  lemma BitMask(b: Bounds, i: nat)
    ensures Bit(MaskOf(b), i) <==> b.lo <= i <= b.hi
  {
    if b.lo <= b.hi {
      BitCMask(b.hi, b.lo, i);
    } else {
      ZeroBits(i);
    }
  }

  /** The bits of a generated mask: one bit has itself, a span all from its low to its high end,
      "any" none. */
  lemma RangeMask(r: Range, i: nat)
    ensures Bit(MaskOf(BoundsOf(r)), i) <==>
      match r
      case AnyRange => false
      case OneBit(bit) => i == bit
      case Span(hi, lo) => lo <= i <= hi
  {
    BitMask(BoundsOf(r), i);
  }

  /** The length that the classes compute from the bounds: "any" has no bits. */
  lemma RangeLength(r: Range)
    ensures BoundsOf(r).hi - BoundsOf(r).lo + 1 ==
      match r
      case AnyRange => 0
      case OneBit(_) => 1
      case Span(hi, lo) => hi - lo + 1
  {
  }

  /** A field alone in its register is refused exactly when its ends are the wrong way round or
      it starts at bit 256 or above. */
  lemma SingleAcceptedIff(r: Range)
    ensures AllInOrder([r]) <==>
      match r
      case AnyRange => true
      case OneBit(bit) => bit < 256
      case Span(hi, lo) => lo <= hi && lo < 256
  {
    assert AllInOrder([r]) <==> InOrder([r], 0);
  }

  lemma NoCommonBit(a: nat, b: nat)
    requires forall i: nat :: !(Bit(a, i) && Bit(b, i))
    ensures And(a, b) == 0
  {
    forall i: nat ensures Bit(And(a, b), i) <==> Bit(0, i) {
      BitAnd(a, b, i);
      ZeroBits(i);
    }
    SameBits(And(a, b), 0);
  }

  /** The check covers only the low ends: two accepted fields have disjoint masks if and only
      if the later one ends below the earlier one. */
  lemma AcceptedDisjointIff(rs: seq<Range>, i: nat, j: nat)
    requires AllInOrder(rs) && i < j < |rs| && !rs[i].AnyRange? && !rs[j].AnyRange?
    ensures And(MaskOf(BoundsOf(rs[i])), MaskOf(BoundsOf(rs[j]))) == 0 <==> BoundsOf(rs[j]).hi < BoundsOf(rs[i]).lo
  {
    var a, b := BoundsOf(rs[i]), BoundsOf(rs[j]);
    assert InOrder(rs, i) && InOrder(rs, j);
    if b.hi < a.lo {
      forall k: nat ensures !(Bit(MaskOf(a), k) && Bit(MaskOf(b), k)) {
        BitMask(a, k);
        BitMask(b, k);
      }
      NoCommonBit(MaskOf(a), MaskOf(b));
    } else {
      BitMask(a, a.lo);
      BitMask(b, a.lo);
      BitAnd(MaskOf(a), MaskOf(b), a.lo);
      ZeroBits(a.lo);
    }
  }

  ghost predicate Overlaps(bs: seq<Bounds>, i: nat, j: nat)
    requires i < |bs| && j < |bs|
  {
    And(MaskOf(bs[i]), MaskOf(bs[j])) != 0
  }

  /** All masks of an accepted register are disjoint if and only if each range ends below the
      low end of the ranges before it: the condition for settings to be stored and loaded. */
  lemma AcceptedAllDisjointIff(rs: seq<Range>)
    requires AllInOrder(rs)
    ensures (forall i, j :: 0 <= i < j < |rs| ==> !Overlaps(AllBounds(rs), i, j))
            <==> forall i, j :: 0 <= i < j < |rs| && !rs[i].AnyRange? && !rs[j].AnyRange? ==>
                 BoundsOf(rs[j]).hi < BoundsOf(rs[i]).lo
  {
    forall i, j | 0 <= i < j < |rs|
      ensures !Overlaps(AllBounds(rs), i, j)
              <==> rs[i].AnyRange? || rs[j].AnyRange? || BoundsOf(rs[j]).hi < BoundsOf(rs[i]).lo
    {
      if !rs[i].AnyRange? && !rs[j].AnyRange? {
        AcceptedDisjointIff(rs, i, j);
      }
    }
  }

  /** Bits 7..4 followed by 5..0 pass the check and share bits 4 and 5. */
  lemma OverlapAccepted()
    ensures var rs := [Span(7, 4), Span(5, 0)];
      AllInOrder(rs) && Overlaps(AllBounds(rs), 0, 1)
  {
    var rs := [Span(7, 4), Span(5, 0)];
    assert AllInOrder(rs);
    AcceptedDisjointIff(rs, 0, 1);
  }
}
