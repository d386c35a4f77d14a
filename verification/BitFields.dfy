/** Named bit fields of 64-bit registers: lookup by name, reading and writing a field. */
module BitFields {
  import opened Wrappers
  import opened Words

  /** An entry of the generated bit-field table. */
  datatype Field = Field(name: string, address: nat, readable: bool, writable: bool, mask: nat, shift: nat)

  /** The memory-mapped registers: the 64-bit word at each byte offset. */
  type Registers = map<nat, nat>

  datatype Error = NotFound | NotReadable | NotWriteable | OutOfRange | NoEquals

  /** The mask and shift that the code generator emits for the bit range `[hi, lo]`. */
  ghost predicate Spans(f: Field, hi: nat, lo: nat) {
    lo <= hi < 64 && f.mask == CMask(hi, lo) && f.shift == lo
  }

  ghost predicate Generated(f: Field) {
    exists hi: nat, lo: nat :: Spans(f, hi, lo)
  }

  /** `(word & mask) >> shift` */
  function GetBits(word: nat, f: Field): nat {
    Shr(And(word, f.mask), f.shift)
  }

  /** `word &= ~mask; word |= (value << shift) & mask` */
  function SetBits(word: nat, f: Field, value: nat): nat {
    Or(AndNot(word, f.mask), And(Shl(value, f.shift), f.mask))
  }

  /** The largest value the field can hold. */
  function MaxValue(f: Field): nat { Shr(f.mask, f.shift) }

  // ---------------------------------------------------------------- one field

  lemma BitGet(word: nat, f: Field, hi: nat, lo: nat, i: nat)
    requires Spans(f, hi, lo)
    ensures Bit(GetBits(word, f), i) <==> Bit(word, i + lo) && i + lo <= hi
  {
    BitShr(And(word, f.mask), lo, i);
    BitAnd(word, f.mask, i + lo);
    BitCMask(hi, lo, i + lo);
  }

  lemma BitSet(word: nat, f: Field, value: nat, hi: nat, lo: nat, i: nat)
    requires Spans(f, hi, lo)
    ensures Bit(SetBits(word, f, value), i) <==> if lo <= i <= hi then Bit(value, i - lo) else Bit(word, i)
  {
    BitOr(AndNot(word, f.mask), And(Shl(value, lo), f.mask), i);
    BitAndNot(word, f.mask, i);
    BitAnd(Shl(value, lo), f.mask, i);
    BitShl(value, lo, i);
    BitCMask(hi, lo, i);
  }

  lemma MaxIsOnes(f: Field, hi: nat, lo: nat)
    requires Spans(f, hi, lo)
    ensures MaxValue(f) == Ones(hi - lo + 1)
  {
    forall i: nat ensures Bit(MaxValue(f), i) <==> Bit(Ones(hi - lo + 1), i) {
      BitShr(f.mask, lo, i);
      BitCMask(hi, lo, i + lo);
      BitOnes(hi - lo + 1, i);
    }
    SameBits(MaxValue(f), Ones(hi - lo + 1));
  }

  /** What is written in range is read back. */
  lemma GetAfterSet(word: nat, f: Field, value: nat)
    requires Generated(f) && value <= MaxValue(f)
    ensures GetBits(SetBits(word, f, value), f) == value
  {
    var hi: nat, lo: nat :| Spans(f, hi, lo);
    MaxIsOnes(f, hi, lo);
    forall i: nat ensures Bit(GetBits(SetBits(word, f, value), f), i) <==> Bit(value, i) {
      BitGet(SetBits(word, f, value), f, hi, lo, i);
      BitSet(word, f, value, hi, lo, i + lo);
      if i + lo > hi {
        AtMostOnes(value, hi - lo + 1, i);
      }
    }
    SameBits(GetBits(SetBits(word, f, value), f), value);
  }

  /** What is read is in range, so it can always be written back. */
  lemma GetInRange(word: nat, f: Field)
    requires Generated(f)
    ensures GetBits(word, f) <= MaxValue(f)
  {
    var hi: nat, lo: nat :| Spans(f, hi, lo);
    MaxIsOnes(f, hi, lo);
    forall i: nat | i >= hi - lo + 1 ensures !Bit(GetBits(word, f), i) {
      BitGet(word, f, hi, lo, i);
    }
    HighBitsClear(GetBits(word, f), hi - lo + 1);
  }

  /** No bit is lost on the way: the shifted value and the new register are 64-bit words. */
  lemma SetStaysWord(word: nat, f: Field, value: nat)
    requires Generated(f) && value <= MaxValue(f) && word <= Ones(64)
    ensures Shl(value, f.shift) <= Ones(64) && SetBits(word, f, value) <= Ones(64)
  {
    var hi: nat, lo: nat :| Spans(f, hi, lo);
    MaxIsOnes(f, hi, lo);
    ShlStaysWord(value, hi, lo);
    forall i: nat | i >= 64 ensures !Bit(SetBits(word, f, value), i) {
      BitSet(word, f, value, hi, lo, i);
      AtMostOnes(word, 64, i);
    }
    HighBitsClear(SetBits(word, f, value), 64);
  }

  lemma ShlStaysWord(value: nat, hi: nat, lo: nat)
    requires lo <= hi < 64 && value <= Ones(hi - lo + 1)
    ensures Shl(value, lo) <= Ones(64)
  {
    forall i: nat | i >= 64 ensures !Bit(Shl(value, lo), i) {
      BitShl(value, lo, i);
      AtMostOnes(value, hi - lo + 1, i - lo);
    }
    HighBitsClear(Shl(value, lo), 64);
  }

  /** Writing a field leaves every bit outside its mask alone. */
  lemma SetFrame(word: nat, f: Field, value: nat, i: nat)
    requires Generated(f) && !Bit(f.mask, i)
    ensures Bit(SetBits(word, f, value), i) <==> Bit(word, i)
  {
    var hi: nat, lo: nat :| Spans(f, hi, lo);
    BitCMask(hi, lo, i);
    BitSet(word, f, value, hi, lo, i);
  }

  /** Writing one field does not change what another field with a disjoint mask reads. */
  lemma GetOther(word: nat, f: Field, value: nat, g: Field)
    requires Generated(f) && Generated(g) && And(f.mask, g.mask) == 0
    ensures GetBits(SetBits(word, f, value), g) == GetBits(word, g)
  {
    var hi: nat, lo: nat :| Spans(g, hi, lo);
    forall i: nat ensures Bit(GetBits(SetBits(word, f, value), g), i) <==> Bit(GetBits(word, g), i) {
      BitGet(SetBits(word, f, value), g, hi, lo, i);
      BitGet(word, g, hi, lo, i);
      if lo <= i + lo <= hi {
        BitAnd(f.mask, g.mask, i + lo);
        ZeroBits(i + lo);
        BitCMask(hi, lo, i + lo);
        SetFrame(word, f, value, i + lo);
      }
    }
    SameBits(GetBits(SetBits(word, f, value), g), GetBits(word, g));
  }

  // ---------------------------------------------------------------- the table

  function Upper(c: char): char {
    if 'a' <= c <= 'z' then c - 32 as char else c
  }

  /** Field names match without regard to case, and '-' stands for '_'. */
  function Canonical(name: string): string {
    seq(|name|, i requires 0 <= i < |name| => if Upper(name[i]) == '-' then '_' else Upper(name[i]))
  }

  function Lookup(table: seq<Field>, canonical: string): Option<Field> {
    if table == [] then None
    else if table[0].name == canonical then Some(table[0])
    else Lookup(table[1..], canonical)
  }

  /** cfg_bitfield */
  function FindField(table: seq<Field>, name: string): Option<Field> {
    Lookup(table, Canonical(name))
  }

  ghost predicate Mapped(table: seq<Field>, regs: Registers) {
    forall f :: f in table ==> f.address in regs
  }

  lemma {:induction false} LookupMember(table: seq<Field>, name: string)
    ensures Lookup(table, name).Some? ==> Lookup(table, name).value in table && Lookup(table, name).value.name == name
  {
    if table != [] {
      LookupMember(table[1..], name);
    }
  }

  /** cfg_get_option */
  function GetOption(table: seq<Field>, regs: Registers, name: string): Result<nat, Error>
    requires Mapped(table, regs)
  {
    match FindField(table, name)
    case None => Err(NotFound)
    case Some(f) =>
      LookupMember(table, Canonical(name));
      if !f.readable then Err(NotReadable) else Ok(GetBits(regs[f.address], f))
  }

  /** cfg_set_option */
  function SetOption(table: seq<Field>, regs: Registers, name: string, value: nat): (r: Result<Registers, Error>)
    requires Mapped(table, regs)
    ensures r.Ok? ==> r.value.Keys == regs.Keys
  {
    match FindField(table, name)
    case None => Err(NotFound)
    case Some(f) =>
      LookupMember(table, Canonical(name));
      if !f.writable then Err(NotWriteable)
      else if value > MaxValue(f) then Err(OutOfRange)
      else Ok(regs[f.address := SetBits(regs[f.address], f, value)])
  }

  /** Field names are already canonical and no two fields share one. */
  ghost predicate UniqueNames(table: seq<Field>) {
    && (forall f :: f in table ==> Canonical(f.name) == f.name)
    && forall i, j :: 0 <= i < j < |table| ==> table[i].name != table[j].name
  }

  lemma {:induction false} LookupFinds(table: seq<Field>, k: nat)
    requires k < |table| && forall i, j :: 0 <= i < j < |table| ==> table[i].name != table[j].name
    ensures Lookup(table, table[k].name) == Some(table[k])
  {
    if k > 0 {
      LookupFinds(table[1..], k - 1);
    }
  }

  lemma FindSelf(table: seq<Field>, f: Field)
    requires UniqueNames(table) && f in table
    ensures FindField(table, f.name) == Some(f)
  {
    var k :| 0 <= k < |table| && table[k] == f;
    LookupFinds(table, k);
  }
}
