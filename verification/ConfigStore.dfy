/** Storing the read-write fields of a card as text and loading that text again. */
module ConfigStore {
  import opened Wrappers
  import opened Words
  import opened BitFields
  import opened ConfigText

  predicate Stored(f: Field) { f.readable && f.writable }

  /** The text that cmd_store writes for the entries `fs` of `table`. */
  function StoreText(table: seq<Field>, fs: seq<Field>, regs: Registers): Result<string, Error>
    requires Mapped(table, regs)
  {
    if fs == [] then Ok("")
    else if !Stored(fs[0]) then StoreText(table, fs[1..], regs)
    else
      match GetOption(table, regs, fs[0].name)
      case Err(e) => Err(e)
      case Ok(value) =>
        match StoreText(table, fs[1..], regs)
        case Err(e) => Err(e)
        case Ok(text) => Ok(Line(fs[0].name, value) + text)
  }

  predicate IsSleep(key: string) { key == "sleep" || key == "SLEEP" }

  /** One line of cmd_load: a `sleep` setting touches no register. */
  function LoadLine(table: seq<Field>, regs: Registers, line: string): (r: Result<Registers, Error>)
    requires Mapped(table, regs)
    ensures r.Ok? ==> r.value.Keys == regs.Keys
  {
    match SplitKeyValue(SkipSpaces(line))
    case Err(e) => Err(e)
    case Ok((key, value)) => if IsSleep(key) then Ok(regs) else SetOption(table, regs, key, value)
  }

  /** All lines in order; loading stops at the first error and keeps what it has written. */
  function LoadLines(table: seq<Field>, regs: Registers, lines: seq<string>): (r: (Registers, Option<Error>))
    requires Mapped(table, regs)
    ensures r.0.Keys == regs.Keys
    decreases |lines|
  {
    if lines == [] then (regs, None)
    else
      match LoadLine(table, regs, lines[0])
      case Err(e) => (regs, Some(e))
      case Ok(regs') => LoadLines(table, regs', lines[1..])
  }

  /** By how many characters cmd_load moves the start of a line past white space. */
  function Lead(line: string): nat {
    |line| - |SkipSpaces(line)|
  }

  /** By how many characters it has moved the pointer that `getline` and `free` get back, over all
      lines up to the first error; anything but 0 is undefined behaviour. */
  function PointerMoved(table: seq<Field>, regs: Registers, lines: seq<string>): nat
    requires Mapped(table, regs)
    decreases |lines|
  {
    if lines == [] then 0
    else
      Lead(lines[0]) +
      match LoadLine(table, regs, lines[0])
      case Err(_) => 0
      case Ok(regs') => PointerMoved(table, regs', lines[1..])
  }

  /** A table as the code generator makes it, with the assumptions its names must meet: they
      are canonical, unique, plain and none is the reserved word SLEEP; read-write fields of
      one register do not overlap. */
  ghost predicate GoodTable(table: seq<Field>) {
    && UniqueNames(table)
    && (forall f :: f in table ==> Generated(f) && PlainName(f.name) && !IsSleep(f.name))
    && forall i, j :: 0 <= i < j < |table| && Stored(table[i]) && Stored(table[j]) ==>
         table[i].address == table[j].address ==> And(table[i].mask, table[j].mask) == 0
  }

  /** What loading the stored text amounts to, field by field. */
  function CopyFields(fs: seq<Field>, source: Registers, target: Registers): (r: Registers)
    requires Mapped(fs, source) && Mapped(fs, target)
    ensures r.Keys == target.Keys
    decreases |fs|
  {
    if fs == [] then target
    else if !Stored(fs[0]) then CopyFields(fs[1..], source, target)
    else
      var f := fs[0];
      var value := Saturated(GetBits(source[f.address], f));
      CopyFields(fs[1..], source, target[f.address := SetBits(target[f.address], f, value)])
  }

  ghost predicate Suffix(fs: seq<Field>, table: seq<Field>) {
    |fs| <= |table| && fs == table[|table| - |fs|..]
  }

  lemma LoadStoredLine(table: seq<Field>, f: Field, source: Registers, target: Registers)
    requires GoodTable(table) && f in table && Stored(f) && Mapped(table, source) && Mapped(table, target)
    ensures GetOption(table, source, f.name) == Ok(GetBits(source[f.address], f))
    ensures var value := GetBits(source[f.address], f);
      LoadLine(table, target, Line(f.name, value))
      == Ok(target[f.address := SetBits(target[f.address], f, Saturated(value))])
  {
    FindSelf(table, f);
    GetInRange(source[f.address], f);
    SplitPrinted(f.name, GetBits(source[f.address], f));
  }

  /** Storing never fails, and loading the stored text copies every read-write field. */
  lemma {:induction false} LoadIsCopy(table: seq<Field>, fs: seq<Field>, source: Registers, target: Registers)
    requires GoodTable(table) && Suffix(fs, table) && Mapped(table, source) && Mapped(table, target)
    ensures StoreText(table, fs, source).Ok?
    ensures LoadLines(table, target, Lines(StoreText(table, fs, source).value))
            == (CopyFields(fs, source, target), None)
    decreases |fs|
  {
    if fs != [] {
      var f := fs[0];
      assert Suffix(fs[1..], table) && f in table;
      if Stored(f) {
        var value := GetBits(source[f.address], f);
        LoadStoredLine(table, f, source, target);
        var target' := target[f.address := SetBits(target[f.address], f, Saturated(value))];
        LoadIsCopy(table, fs[1..], source, target');
        LinesOfPrinted(f.name, value, StoreText(table, fs[1..], source).value);
      } else {
        LoadIsCopy(table, fs[1..], source, target);
      }
    }
  }

  /** Loading a stored text leaves the line pointer where it was. */
  lemma {:induction false} StoredKeepsPointer(table: seq<Field>, fs: seq<Field>, source: Registers, target: Registers)
    requires GoodTable(table) && Suffix(fs, table) && Mapped(table, source) && Mapped(table, target)
    ensures StoreText(table, fs, source).Ok?
    ensures PointerMoved(table, target, Lines(StoreText(table, fs, source).value)) == 0
    decreases |fs|
  {
    LoadIsCopy(table, fs, source, target);
    if fs != [] {
      var f := fs[0];
      assert Suffix(fs[1..], table) && f in table;
      if Stored(f) {
        var value := GetBits(source[f.address], f);
        LoadStoredLine(table, f, source, target);
        var target' := target[f.address := SetBits(target[f.address], f, Saturated(value))];
        StoredKeepsPointer(table, fs[1..], source, target');
        LinesOfPrinted(f.name, value, StoreText(table, fs[1..], source).value);
        assert Line(f.name, value)[0] == if f.name == "" then '=' else f.name[0];
        assert Lead(Line(f.name, value)) == 0;
      } else {
        StoredKeepsPointer(table, fs[1..], source, target);
      }
    }
  }

  /** No later field overlaps `f`. */
  ghost predicate Clear(f: Field, fs: seq<Field>) {
    forall g :: g in fs && Stored(g) && g.address == f.address ==> Generated(g) && And(g.mask, f.mask) == 0
  }

  lemma {:induction false} CopyLeaves(fs: seq<Field>, source: Registers, target: Registers, f: Field)
    requires Mapped(fs, source) && Mapped(fs, target) && f.address in target && Generated(f) && Clear(f, fs)
    ensures GetBits(CopyFields(fs, source, target)[f.address], f) == GetBits(target[f.address], f)
    decreases |fs|
  {
    if fs != [] {
      var g := fs[0];
      assert Clear(f, fs[1..]);
      if Stored(g) {
        var value := Saturated(GetBits(source[g.address], g));
        CopyLeaves(fs[1..], source, target[g.address := SetBits(target[g.address], g, value)], f);
        if g.address == f.address {
          GetOther(target[g.address], g, value, f);
        }
      } else {
        CopyLeaves(fs[1..], source, target, f);
      }
    }
  }

  ghost predicate Separated(fs: seq<Field>) {
    && (forall f :: f in fs ==> Generated(f))
    && forall i, j :: 0 <= i < j < |fs| && Stored(fs[i]) && Stored(fs[j]) && fs[i].address == fs[j].address
         ==> And(fs[i].mask, fs[j].mask) == 0
  }

  lemma {:induction false} AndSymmetric(a: nat, b: nat)
    ensures And(a, b) == And(b, a)
  {
    if a != 0 && b != 0 {
      AndSymmetric(a / 2, b / 2);
    }
  }

  /** After the copy every read-write field holds the saturated source value. */
  lemma {:induction false} CopyArrives(fs: seq<Field>, source: Registers, target: Registers, k: nat)
    requires Mapped(fs, source) && Mapped(fs, target) && Separated(fs) && k < |fs| && Stored(fs[k])
    ensures GetBits(CopyFields(fs, source, target)[fs[k].address], fs[k])
            == Saturated(GetBits(source[fs[k].address], fs[k]))
    decreases |fs|
  {
    var f := fs[0];
    assert Separated(fs[1..]);
    if k > 0 {
      var target' := if Stored(f)
        then target[f.address := SetBits(target[f.address], f, Saturated(GetBits(source[f.address], f)))] else target;
      CopyArrives(fs[1..], source, target', k - 1);
    } else {
      var value := Saturated(GetBits(source[f.address], f));
      GetInRange(source[f.address], f);
      GetAfterSet(target[f.address], f, value);
      forall g | g in fs[1..] && Stored(g) && g.address == f.address ensures And(g.mask, f.mask) == 0 {
        var j :| 0 <= j < |fs[1..]| && fs[1..][j] == g;
        AndSymmetric(f.mask, g.mask);
        assert fs[j + 1] == g;
      }
      CopyLeaves(fs[1..], source, target[f.address := SetBits(target[f.address], f, value)], f);
    }
  }

  /** The bits that no read-write field of the register at `address` covers. */
  ghost predicate Uncovered(fs: seq<Field>, address: nat, i: nat) {
    forall f :: f in fs && Stored(f) && f.address == address ==> !Bit(f.mask, i)
  }

  lemma {:induction false} CopyFrame(fs: seq<Field>, source: Registers, target: Registers, address: nat, i: nat)
    requires Mapped(fs, source) && Mapped(fs, target) && address in target
    requires (forall f :: f in fs ==> Generated(f)) && Uncovered(fs, address, i)
    ensures Bit(CopyFields(fs, source, target)[address], i) <==> Bit(target[address], i)
    decreases |fs|
  {
    if fs != [] {
      var f := fs[0];
      assert Uncovered(fs[1..], address, i);
      if Stored(f) {
        var value := Saturated(GetBits(source[f.address], f));
        if f.address == address {
          SetFrame(target[address], f, value, i);
        }
        CopyFrame(fs[1..], source, target[f.address := SetBits(target[f.address], f, value)], address, i);
      } else {
        CopyFrame(fs[1..], source, target, address, i);
      }
    }
  }

  /** The registers after storing the fields of `source` and loading the text over `target`. */
  function StoreThenLoad(table: seq<Field>, source: Registers, target: Registers): (r: (Registers, Option<Error>))
    requires Mapped(table, source) && Mapped(table, target) && StoreText(table, table, source).Ok?
    ensures r.0.Keys == target.Keys
  {
    LoadLines(table, target, Lines(StoreText(table, table, source).value))
  }

  /** Store, then load over any other register state: storing and loading report no error,
      every read-write field ends with the stored value if that is below 2^63 and with
      2^63 - 1 otherwise, and every bit outside the read-write masks is unchanged. */
  lemma StoreLoadFields(table: seq<Field>, source: Registers, target: Registers, k: nat, address: nat, i: nat)
    requires GoodTable(table) && Mapped(table, source) && Mapped(table, target)
    requires k < |table| && Stored(table[k]) && address in target
    ensures StoreText(table, table, source).Ok?
    ensures StoreThenLoad(table, source, target).1 == None
    ensures var regs := StoreThenLoad(table, source, target).0;
      && GetBits(regs[table[k].address], table[k]) == Saturated(GetBits(source[table[k].address], table[k]))
      && (Uncovered(table, address, i) ==> (Bit(regs[address], i) <==> Bit(target[address], i)))
  {
    LoadIsCopy(table, table, source, target);
    CopyArrives(table, source, target, k);
    if Uncovered(table, address, i) {
      CopyFrame(table, source, target, address, i);
    }
  }

  /** The round trip restores every read-write field exactly when each stored value is below
      2^63: larger ones come back as 2^63 - 1, because strtoll saturates. */
  lemma StoreLoadIff(table: seq<Field>, source: Registers, target: Registers)
    requires GoodTable(table) && Mapped(table, source) && Mapped(table, target)
    ensures StoreText(table, table, source).Ok?
    ensures (forall f :: f in table && Stored(f) ==>
               GetBits(StoreThenLoad(table, source, target).0[f.address], f) == GetBits(source[f.address], f))
            <==> (forall f :: f in table && Stored(f) ==> GetBits(source[f.address], f) <= LLONG_MAX)
  {
    LoadIsCopy(table, table, source, target);
    var regs := StoreThenLoad(table, source, target).0;
    forall f | f in table && Stored(f)
      ensures GetBits(regs[f.address], f) == Saturated(GetBits(source[f.address], f))
    {
      var k :| 0 <= k < |table| && table[k] == f;
      CopyArrives(table, source, target, k);
    }
  }
}
