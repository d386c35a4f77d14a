/** What reading and writing a field by name does, in terms of the names, flags and bit ranges
    of the table. */
module FieldOptions {
  import opened Wrappers
  import opened Words
  import opened BitFields

  // ---------------------------------------------------------------- names

  /** A character that may be typed for `d`: a letter in either case, and '-' for '_'. */
  predicate StandsFor(c: char, d: char) {
    c == d || ('A' <= d <= 'Z' && c == d + 32 as char) || (c == '-' && d == '_')
  }

  ghost predicate Spells(given: string, name: string) {
    |given| == |name| && forall i :: 0 <= i < |name| ==> StandsFor(given[i], name[i])
  }

  /** A name is canonical exactly without lower-case letters and without '-'. */
  lemma CanonicalIff(name: string)
    ensures Canonical(name) == name <==> forall i :: 0 <= i < |name| ==> !('a' <= name[i] <= 'z') && name[i] != '-'
  {
    if Canonical(name) == name {
      forall i | 0 <= i < |name| ensures !('a' <= name[i] <= 'z') && name[i] != '-' {
        assert Canonical(name)[i] == name[i];
      }
    }
  }

  lemma SpellsIff(given: string, name: string)
    requires Canonical(name) == name
    ensures Canonical(given) == name <==> Spells(given, name)
  {
    CanonicalIff(name);
    if Canonical(given) == name {
      forall i | 0 <= i < |name| ensures StandsFor(given[i], name[i]) {
        assert Canonical(given)[i] == name[i];
      }
    }
  }

  /** The lookup finds exactly the field that the name spells. */
  lemma FindIff(table: seq<Field>, name: string, f: Field)
    requires UniqueNames(table)
    ensures FindField(table, name) == Some(f) <==> f in table && Spells(name, f.name)
  {
    LookupMember(table, Canonical(name));
    if FindField(table, name) == Some(f) || (f in table && Spells(name, f.name)) {
      SpellsIff(name, f.name);
      FindSelf(table, f);
    }
  }

  lemma FindNone(table: seq<Field>, name: string)
    requires UniqueNames(table)
    ensures FindField(table, name) == None <==> forall f :: f in table ==> !Spells(name, f.name)
  {
    LookupMember(table, Canonical(name));
    forall f | f in table ensures Spells(name, f.name) <==> FindField(table, name) == Some(f) {
      FindIff(table, name, f);
    }
  }

  // ---------------------------------------------------------------- options

  /** Reading: a name that spells no field and a field that is not readable are refused, each
      with its own error; otherwise the bits `lo` to `hi` of the field's register come back. */
  lemma GetOutcome(table: seq<Field>, regs: Registers, name: string, f: Field, hi: nat, lo: nat)
    requires Mapped(table, regs) && UniqueNames(table)
    requires f in table && Spells(name, f.name) && Spans(f, hi, lo)
    ensures var res := GetOption(table, regs, name);
      && (!f.readable ==> res == Err(NotReadable))
      && (f.readable ==>
            res.Ok? && forall i: nat :: Bit(res.value, i) <==> i <= hi - lo && Bit(regs[f.address], lo + i))
  {
    FindIff(table, name, f);
    forall i: nat ensures Bit(GetBits(regs[f.address], f), i) <==> i <= hi - lo && Bit(regs[f.address], lo + i) {
      BitGet(regs[f.address], f, hi, lo, i);
      assert i + lo == lo + i;
    }
  }

  /** Writing: a field that is not writable and a value with more bits than the field are
      refused, each with its own error.  Otherwise the value's bits go to the bits `lo` to `hi` of
      the field's register, all other bits and registers stay, and a readable field reads back
      as the value. */
  lemma SetOutcome(table: seq<Field>, regs: Registers, name: string, value: nat, f: Field, hi: nat, lo: nat)
    requires Mapped(table, regs) && UniqueNames(table)
    requires f in table && Spells(name, f.name) && Spans(f, hi, lo)
    ensures var res := SetOption(table, regs, name, value);
      && (!f.writable ==> res == Err(NotWriteable))
      && (f.writable && value > Ones(hi - lo + 1) ==> res == Err(OutOfRange))
      && (f.writable && value <= Ones(hi - lo + 1) ==>
            && res.Ok? && res.value == regs[f.address := res.value[f.address]]
            && (forall i: nat :: Bit(res.value[f.address], i) <==>
                  if lo <= i <= hi then Bit(value, i - lo) else Bit(regs[f.address], i))
            && (f.readable ==> GetOption(table, res.value, name) == Ok(value)))
  {
    FindIff(table, name, f);
    MaxIsOnes(f, hi, lo);
    var word := SetBits(regs[f.address], f, value);
    forall i: nat ensures Bit(word, i) <==> if lo <= i <= hi then Bit(value, i - lo) else Bit(regs[f.address], i) {
      BitSet(regs[f.address], f, value, hi, lo, i);
    }
    if value <= Ones(hi - lo + 1) {
      assert Generated(f);
      GetAfterSet(regs[f.address], f, value);
    }
  }

  /** A name is not found exactly if no field of the table is spelled by it. */
  lemma NotFoundIff(table: seq<Field>, regs: Registers, name: string, value: nat)
    requires Mapped(table, regs) && UniqueNames(table)
    ensures var unknown := forall f :: f in table ==> !Spells(name, f.name);
      && (GetOption(table, regs, name) == Err(NotFound) <==> unknown)
      && (SetOption(table, regs, name, value) == Err(NotFound) <==> unknown)
  {
    FindNone(table, name);
  }
}
