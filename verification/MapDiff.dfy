/** Comparing two register maps: which rows the comparison shows, in which order, and how the
    rows are numbered. */
module MapDiff {
  import opened Wrappers

  datatype BitField = BitField(name: string, kind: string, range: string, desc: string, value: string)

  datatype Register = Register(name: string, address: nat, endpoints: string, kind: string, fields: seq<BitField>)

  /** The mark of a row: the old side of a change, its new side, or a one-sided entry. */
  datatype Mark = Removed | Changed | Into | Added

  datatype Row = Row(mark: Mark, register: Register, key: nat)

  /** The entry of the dictionary of a map: the last register stored under that name. */
  function Find(rs: seq<Register>, name: string): Option<Register> {
    if rs == [] then None
    else if rs[|rs| - 1].name == name then Some(rs[|rs| - 1])
    else Find(rs[..|rs| - 1], name)
  }

  /** The entry of a bitfieldByName dictionary: the last field of that name. */
  function LastNamed(fs: seq<BitField>, name: string): Option<BitField> {
    if fs == [] then None
    else
      match LastNamed(fs[1..], name)
      case Some(f) => Some(f)
      case None => if fs[0].name == name then Some(fs[0]) else None
  }

  predicate Agree(f: BitField, g: BitField) {
    f.kind == g.kind && f.range == g.range && f.desc == g.desc && f.value == g.value
  }

  /** Whether the field has an agreeing counterpart in the other register. */
  predicate Matched(f: BitField, fs: seq<BitField>) {
    match LastNamed(fs, f.name)
    case None => false
    case Some(g) => Agree(f, g)
  }

  /** Whether two registers of the same name differ. */
  predicate Differs(r: Register, d: Register) {
    || r.address != d.address
    || r.endpoints != d.endpoints
    || (exists i :: 0 <= i < |r.fields| && !Matched(r.fields[i], d.fields))
    || (exists i :: 0 <= i < |d.fields| && LastNamed(r.fields, d.fields[i].name) == None)
  }

  /** The mark that the comparison puts on a field of the new register. */
  function MarkOf(f: BitField, fs: seq<BitField>): string {
    match LastNamed(fs, f.name)
    case None => "Added"
    case Some(g) => if f.kind != g.kind || f.range != g.range || f.desc != g.desc then "Into" else ""
  }

  /** A field that does not match goes unmarked exactly when its value alone has changed: its
      register is then shown as changed without any mark that says why. */
  lemma UnmarkedIff(f: BitField, fs: seq<BitField>)
    ensures !Matched(f, fs) && MarkOf(f, fs) == "" <==>
            LastNamed(fs, f.name).Some? && LastNamed(fs, f.name).value.(name := f.name, value := f.value) == f
            && LastNamed(fs, f.name).value.value != f.value
  {
  }

  /** A field or register that is written or triggered. */
  predicate IsInput(kind: string) { kind == "W" || kind == "T" }

  predicate TypeChanged(f: BitField, fs: seq<BitField>) {
    match LastNamed(fs, f.name)
    case None => false
    case Some(g) => f.kind != g.kind
  }

  predicate InputRetyped(f: BitField, fs: seq<BitField>) {
    match LastNamed(fs, f.name)
    case None => false
    case Some(g) => f.kind != g.kind && IsInput(g.kind)
  }

  predicate Moved(f: BitField, fs: seq<BitField>) {
    match LastNamed(fs, f.name)
    case None => false
    case Some(g) => f.range != g.range || f.value != g.value
  }

  /** Whether programs written for `d` can fail with `r`: something has moved or gone, has another
      value, or has another type where it used to be written. */
  predicate Incompatible(r: Register, d: Register) {
    || r.address != d.address
    || r.endpoints != d.endpoints
    || (exists i :: 0 <= i < |r.fields| && Moved(r.fields[i], d.fields))
    || (exists i :: 0 <= i < |r.fields| && InputRetyped(r.fields[i], d.fields))
    || (IsInput(d.kind) && exists i :: 0 <= i < |r.fields| && TypeChanged(r.fields[i], d.fields))
    || (exists i :: 0 <= i < |d.fields| && LastNamed(r.fields, d.fields[i].name) == None)
  }

  /** An incompatible register never goes unnoticed; a register that differs and is compatible
      owes that to a field that is new, or that has kept its place and value. */
  lemma IncompatibleIsShown(r: Register, d: Register)
    ensures Incompatible(r, d) ==> Differs(r, d)
    ensures Differs(r, d) && !Incompatible(r, d) ==>
      exists i :: 0 <= i < |r.fields| && !Matched(r.fields[i], d.fields) && !Moved(r.fields[i], d.fields)
  {
    if exists i :: 0 <= i < |r.fields| && (Moved(r.fields[i], d.fields) || TypeChanged(r.fields[i], d.fields)) {
      var i :| 0 <= i < |r.fields| && (Moved(r.fields[i], d.fields) || TypeChanged(r.fields[i], d.fields));
      assert !Matched(r.fields[i], d.fields);
    }
    forall i | 0 <= i < |r.fields| && InputRetyped(r.fields[i], d.fields) ensures TypeChanged(r.fields[i], d.fields) {}
  }

  /** The two rows of a register that changed. */
  function ChangeOf(r: Register, before: seq<Register>): seq<Row> {
    match Find(before, r.name)
    case None => []
    case Some(d) =>
      if Differs(r, d) then [Row(Changed, d, r.address * 10 + 2), Row(Into, r, r.address * 10 + 3)] else []
  }

  function AdditionOf(r: Register, before: seq<Register>): seq<Row> {
    if Find(before, r.name) == None then [Row(Added, r, r.address * 10 + 4)] else []
  }

  function RemovalOf(d: Register, after: seq<Register>): seq<Row> {
    if Find(after, d.name) == None then [Row(Removed, d, d.address * 10 + 1)] else []
  }

  function Changes(rs: seq<Register>, before: seq<Register>): seq<Row> {
    if rs == [] then [] else Changes(rs[..|rs| - 1], before) + ChangeOf(rs[|rs| - 1], before)
  }

  function Additions(rs: seq<Register>, before: seq<Register>): seq<Row> {
    if rs == [] then [] else Additions(rs[..|rs| - 1], before) + AdditionOf(rs[|rs| - 1], before)
  }

  function Removals(ds: seq<Register>, after: seq<Register>): seq<Row> {
    if ds == [] then [] else Removals(ds[..|ds| - 1], after) + RemovalOf(ds[|ds| - 1], after)
  }

  function Rows(after: seq<Register>, before: seq<Register>): seq<Row> {
    Changes(after, before) + Additions(after, before) + Removals(before, after)
  }

  function Insert(row: Row, rows: seq<Row>): seq<Row> {
    if rows == [] || row.key < rows[0].key then [row] + rows else [rows[0]] + Insert(row, rows[1..])
  }

  /** The rows sorted by key; equal keys would keep their order. */
  function SortRows(rows: seq<Row>): seq<Row> {
    if rows == [] then [] else Insert(rows[|rows| - 1], SortRows(rows[..|rows| - 1]))
  }

  /** The displayed rows. */
  function Shown(after: seq<Register>, before: seq<Register>): seq<Row> {
    SortRows(Rows(after, before))
  }

  /** The sequence number of row `i`: how many earlier rows do not start a change. */
  function NumberOf(rows: seq<Row>, i: nat): nat
    requires i <= |rows|
  {
    if i == 0 then 0 else NumberOf(rows, i - 1) + if rows[i - 1].mark == Changed then 0 else 1
  }

  // ---------------------------------------------------------------- which rows there are

  /** Names and addresses identify the registers of a map. */
  ghost predicate GoodMap(rs: seq<Register>) {
    forall i, j :: 0 <= i < j < |rs| ==> rs[i].name != rs[j].name && rs[i].address != rs[j].address
  }

  lemma {:induction false} ChangesExact(rs: seq<Register>, before: seq<Register>, row: Row)
    ensures row in Changes(rs, before) <==> exists r :: r in rs && row in ChangeOf(r, before)
  {
    if rs != [] {
      var r := rs[|rs| - 1];
      ChangesExact(rs[..|rs| - 1], before, row);
      assert rs == rs[..|rs| - 1] + [r];
    }
  }

  lemma {:induction false} AdditionsExact(rs: seq<Register>, before: seq<Register>, row: Row)
    ensures row in Additions(rs, before) <==> exists r :: r in rs && row in AdditionOf(r, before)
  {
    if rs != [] {
      var r := rs[|rs| - 1];
      AdditionsExact(rs[..|rs| - 1], before, row);
      assert rs == rs[..|rs| - 1] + [r];
    }
  }

  lemma {:induction false} RemovalsExact(ds: seq<Register>, after: seq<Register>, row: Row)
    ensures row in Removals(ds, after) <==> exists d :: d in ds && row in RemovalOf(d, after)
  {
    if ds != [] {
      var d := ds[|ds| - 1];
      RemovalsExact(ds[..|ds| - 1], after, row);
      assert ds == ds[..|ds| - 1] + [d];
    }
  }

  /** The rows are exactly: two for a register that both maps have and that differs, one for
      a register only the new map has, one for a register only the old map has. */
  ghost predicate Belongs(row: Row, after: seq<Register>, before: seq<Register>) {
    || (exists r :: r in after && row in ChangeOf(r, before))
    || (exists r :: r in after && row in AdditionOf(r, before))
    || (exists d :: d in before && row in RemovalOf(d, after))
  }

  lemma RowsExact(after: seq<Register>, before: seq<Register>, row: Row)
    ensures row in Rows(after, before) <==> Belongs(row, after, before)
  {
    ChangesExact(after, before, row);
    AdditionsExact(after, before, row);
    RemovalsExact(before, after, row);
  }

  // ---------------------------------------------------------------- sorting

  ghost predicate Ascending(rows: seq<Row>) {
    forall i, j :: 0 <= i < j < |rows| ==> rows[i].key <= rows[j].key
  }

  lemma {:induction false} InsertAdds(row: Row, rows: seq<Row>)
    ensures multiset(Insert(row, rows)) == multiset(rows) + multiset{row}
  {
    if rows != [] && row.key >= rows[0].key {
      InsertAdds(row, rows[1..]);
      assert rows == [rows[0]] + rows[1..];
    }
  }

  lemma AscendingCons(row: Row, rows: seq<Row>)
    requires Ascending(rows) && (rows != [] ==> row.key <= rows[0].key)
    ensures Ascending([row] + rows)
  {
  }

  lemma {:induction false} InsertOrdered(row: Row, rows: seq<Row>)
    requires Ascending(rows)
    ensures Ascending(Insert(row, rows))
    ensures var r := Insert(row, rows);
      r != [] && r[0] == if rows == [] || row.key < rows[0].key then row else rows[0]
  {
    if rows == [] || row.key < rows[0].key {
      AscendingCons(row, rows);
    } else {
      InsertOrdered(row, rows[1..]);
      AscendingCons(rows[0], Insert(row, rows[1..]));
    }
  }

  lemma {:induction false} SortedRows(rows: seq<Row>)
    ensures Ascending(SortRows(rows)) && multiset(SortRows(rows)) == multiset(rows)
  {
    if rows != [] {
      SortedRows(rows[..|rows| - 1]);
      InsertAdds(rows[|rows| - 1], SortRows(rows[..|rows| - 1]));
      InsertOrdered(rows[|rows| - 1], SortRows(rows[..|rows| - 1]));
      assert rows == rows[..|rows| - 1] + [rows[|rows| - 1]];
    }
  }

  lemma SameMembers(rows: seq<Row>, row: Row)
    ensures row in SortRows(rows) <==> row in rows
  {
    SortedRows(rows);
    assert row in SortRows(rows) <==> row in multiset(SortRows(rows));
    assert row in rows <==> row in multiset(rows);
  }

  // ---------------------------------------------------------------- keys

  ghost predicate DistinctKeys(rows: seq<Row>) {
    forall i, j :: 0 <= i < j < |rows| ==> rows[i].key != rows[j].key
  }

  /** All rows of a block come from the registers `rs` through their addresses. */
  ghost predicate KeyedBy(rows: seq<Row>, rs: seq<Register>, digits: set<nat>) {
    forall i :: 0 <= i < |rows| ==> KeyOf(rows[i].key, rs, digits)
  }

  ghost predicate KeyOf(key: nat, rs: seq<Register>, digits: set<nat>) {
    key % 10 in digits && exists r :: r in rs && r.address == key / 10
  }

  lemma KeysJoin(a: seq<Row>, b: seq<Row>)
    requires DistinctKeys(a) && DistinctKeys(b)
    requires forall i, j :: 0 <= i < |a| && 0 <= j < |b| ==> a[i].key != b[j].key
    ensures DistinctKeys(a + b)
  {
  }

  /** The key written for an address carries that address and its last digit. */
  lemma KeyParts(address: nat, digit: nat)
    requires digit < 10
    ensures (address * 10 + digit) / 10 == address && (address * 10 + digit) % 10 == digit
  {
  }

  lemma {:induction false} ChangeKeys(rs: seq<Register>, before: seq<Register>)
    requires GoodMap(rs)
    ensures KeyedBy(Changes(rs, before), rs, {2, 3}) && DistinctKeys(Changes(rs, before))
  {
    if rs != [] {
      var r, front := rs[|rs| - 1], rs[..|rs| - 1];
      ChangeKeys(front, before);
      var a, b := Changes(front, before), ChangeOf(r, before);
      forall i | 0 <= i < |a| ensures KeyOf(a[i].key, rs, {2, 3}) && a[i].key / 10 != r.address {
        assert KeyOf(a[i].key, front, {2, 3});
        var q :| q in front && q.address == a[i].key / 10;
        assert q in rs;
      }
      assert r in rs;
      KeyParts(r.address, 2);
      KeyParts(r.address, 3);
      KeysJoin(a, b);
    }
  }

  lemma {:induction false} AdditionKeys(rs: seq<Register>, before: seq<Register>)
    requires GoodMap(rs)
    ensures KeyedBy(Additions(rs, before), rs, {4}) && DistinctKeys(Additions(rs, before))
  {
    if rs != [] {
      var r, front := rs[|rs| - 1], rs[..|rs| - 1];
      AdditionKeys(front, before);
      var a, b := Additions(front, before), AdditionOf(r, before);
      forall i | 0 <= i < |a| ensures KeyOf(a[i].key, rs, {4}) && a[i].key / 10 != r.address {
        assert KeyOf(a[i].key, front, {4});
        var q :| q in front && q.address == a[i].key / 10;
        assert q in rs;
      }
      assert r in rs;
      KeyParts(r.address, 4);
      KeysJoin(a, b);
    }
  }

  lemma {:induction false} RemovalKeys(ds: seq<Register>, after: seq<Register>)
    requires GoodMap(ds)
    ensures KeyedBy(Removals(ds, after), ds, {1}) && DistinctKeys(Removals(ds, after))
  {
    if ds != [] {
      var d, front := ds[|ds| - 1], ds[..|ds| - 1];
      RemovalKeys(front, after);
      var a, b := Removals(front, after), RemovalOf(d, after);
      forall i | 0 <= i < |a| ensures KeyOf(a[i].key, ds, {1}) && a[i].key / 10 != d.address {
        assert KeyOf(a[i].key, front, {1});
        var q :| q in front && q.address == a[i].key / 10;
        assert q in ds;
      }
      assert d in ds;
      KeyParts(d.address, 1);
      KeysJoin(a, b);
    }
  }

  lemma RowKeys(after: seq<Register>, before: seq<Register>)
    requires GoodMap(after) && GoodMap(before)
    ensures DistinctKeys(Rows(after, before))
  {
    ChangeKeys(after, before);
    AdditionKeys(after, before);
    RemovalKeys(before, after);
    var a, b, c := Changes(after, before), Additions(after, before), Removals(before, after);
    forall i, j | 0 <= i < |a| && 0 <= j < |b| ensures a[i].key != b[j].key {
      assert KeyOf(a[i].key, after, {2, 3}) && KeyOf(b[j].key, after, {4});
    }
    KeysJoin(a, b);
    forall i, j | 0 <= i < |a + b| && 0 <= j < |c| ensures (a + b)[i].key != c[j].key {
      assert KeyOf(c[j].key, before, {1});
      assert if i < |a| then KeyOf(a[i].key, after, {2, 3}) else KeyOf(b[i - |a|].key, after, {4});
    }
    KeysJoin(a + b, c);
  }

  lemma RowTwice(rows: seq<Row>, i: nat, j: nat, ss: seq<Row>)
    requires i < j < |ss| && multiset(rows) == multiset(ss) && ss[i] == ss[j]
    ensures !DistinctKeys(rows)
  {
    var front, back := ss[..j], ss[j..];
    assert ss == front + back;
    assert front[i] in front && back[0] in back;
    if DistinctKeys(rows) {
      DistinctOnce(rows, ss[i]);
    }
  }

  lemma {:induction false} DistinctOnce(rows: seq<Row>, row: Row)
    requires DistinctKeys(rows)
    ensures multiset(rows)[row] <= 1
  {
    if rows != [] {
      DistinctOnce(rows[1..], row);
      assert rows == [rows[0]] + rows[1..];
      assert rows[0] !in rows[1..];
    }
  }

  lemma KeyTwice(rows: seq<Row>, i: nat, j: nat, ss: seq<Row>)
    requires i < j < |ss| && multiset(rows) == multiset(ss) && ss[i].key == ss[j].key
    ensures !DistinctKeys(rows)
  {
    if ss[i] == ss[j] {
      RowTwice(rows, i, j, ss);
    } else {
      assert ss[i] in multiset(rows) && ss[j] in multiset(rows);
      var a :| 0 <= a < |rows| && rows[a] == ss[i];
      var b :| 0 <= b < |rows| && rows[b] == ss[j];
    }
  }

  /** The displayed rows are strictly ordered by their key. */
  lemma StrictlyOrdered(after: seq<Register>, before: seq<Register>, i: nat, j: nat)
    requires GoodMap(after) && GoodMap(before) && i < j < |Shown(after, before)|
    ensures Shown(after, before)[i].key < Shown(after, before)[j].key
  {
    var rows := Rows(after, before);
    SortedRows(rows);
    RowKeys(after, before);
    if SortRows(rows)[i].key == SortRows(rows)[j].key {
      KeyTwice(rows, i, j, SortRows(rows));
    }
  }

  ghost predicate StrictKeys(rows: seq<Row>) {
    forall a, b :: 0 <= a < b < |rows| ==> rows[a].key < rows[b].key
  }

  lemma AllOrdered(after: seq<Register>, before: seq<Register>)
    requires GoodMap(after) && GoodMap(before)
    ensures StrictKeys(Shown(after, before))
  {
    forall a, b | 0 <= a < b < |Shown(after, before)|
      ensures Shown(after, before)[a].key < Shown(after, before)[b].key
    {
      StrictlyOrdered(after, before, a, b);
    }
  }

  // ---------------------------------------------------------------- adjacency and numbering

  lemma {:induction false} FindNamed(rs: seq<Register>, name: string)
    ensures Find(rs, name).Some? ==> Find(rs, name).value.name == name && Find(rs, name).value in rs
  {
    if rs != [] {
      FindNamed(rs[..|rs| - 1], name);
    }
  }

  lemma ShownExact(after: seq<Register>, before: seq<Register>, row: Row)
    ensures row in Shown(after, before) <==> Belongs(row, after, before)
  {
    SameMembers(Rows(after, before), row);
    RowsExact(after, before, row);
  }

  /** A Changed row comes from a register of the new map, and its new side is shown too. */
  lemma NewSideShown(after: seq<Register>, before: seq<Register>, row: Row) returns (into: Row)
    requires Belongs(row, after, before) && row.mark == Changed
    ensures into.mark == Into && into.key == row.key + 1 && into.register.name == row.register.name
    ensures into.register in after && Find(before, row.register.name) == Some(row.register)
    ensures into in Shown(after, before)
  {
    var r :| r in after && row in ChangeOf(r, before);
    FindNamed(before, r.name);
    into := Row(Into, r, r.address * 10 + 3);
    assert ChangeOf(r, before)[1] == into;
    ShownExact(after, before, into);
  }

  /** In a strictly ordered sequence the row whose key is one more comes next. */
  lemma NextKeyIsNext(rows: seq<Row>, i: nat, j: nat)
    requires i < |rows| && j < |rows| && rows[j].key == rows[i].key + 1
    requires StrictKeys(rows)
    ensures j == i + 1
  {
    assert i + 1 < |rows| ==> rows[i].key < rows[i + 1].key;
  }

  lemma FollowedBy(rows: seq<Row>, i: nat, next: Row)
    requires i < |rows| && next in rows && next.key == rows[i].key + 1 && StrictKeys(rows)
    ensures i + 1 < |rows| && rows[i + 1] == next
  {
    var j: nat :| j < |rows| && rows[j] == next;
    NextKeyIsNext(rows, i, j);
  }

  /** The old side of a change is directly followed by its new side. */
  lemma ChangeIsAdjacent(after: seq<Register>, before: seq<Register>, i: nat)
    requires GoodMap(after) && GoodMap(before)
    requires i < |Shown(after, before)| && Shown(after, before)[i].mark == Changed
    ensures var ss := Shown(after, before);
      && i + 1 < |ss| && ss[i + 1].mark == Into && ss[i + 1].register in after
      && ss[i + 1].register.name == ss[i].register.name
      && Find(before, ss[i + 1].register.name) == Some(ss[i].register)
  {
    var ss := Shown(after, before);
    ShownExact(after, before, ss[i]);
    var into := NewSideShown(after, before, ss[i]);
    AllOrdered(after, before);
    FollowedBy(ss, i, into);
  }

  lemma {:induction false} NumbersStep(rows: seq<Row>, i: nat, j: nat)
    requires i < j <= |rows|
    ensures NumberOf(rows, i) + (if rows[i].mark == Changed then 0 else 1) <= NumberOf(rows, j)
    ensures NumberOf(rows, j) <= NumberOf(rows, i) + (j - i)
    decreases j
  {
    if i + 1 < j {
      NumbersStep(rows, i, j - 1);
    }
  }

  /** Sequence numbers start at 0, never skip a value, and two rows share one exactly when
      they are the two sides of one change. */
  lemma SharedNumbers(after: seq<Register>, before: seq<Register>, i: nat, j: nat)
    requires GoodMap(after) && GoodMap(before) && i < j < |Shown(after, before)|
    ensures var ss := Shown(after, before);
      && NumberOf(ss, 0) == 0 && NumberOf(ss, i) <= NumberOf(ss, i + 1) <= NumberOf(ss, i) + 1
      && (NumberOf(ss, i) == NumberOf(ss, j) <==> j == i + 1 && ss[i].mark == Changed)
  {
    var ss := Shown(after, before);
    NumbersStep(ss, i, i + 1);
    NumbersStep(ss, i, j);
    if ss[i].mark == Changed {
      ChangeIsAdjacent(after, before, i);
      if i + 1 < j {
        NumbersStep(ss, i + 1, j);
      }
    }
  }

  // ---------------------------------------------------------------- a map against itself

  /** Fields of one register that share a name agree. */
  ghost predicate NamesAgree(r: Register) {
    forall i :: 0 <= i < |r.fields| ==> Matched(r.fields[i], r.fields)
  }

  lemma {:induction false} LastNamedExists(fs: seq<BitField>, i: nat)
    requires i < |fs|
    ensures LastNamed(fs, fs[i].name).Some?
  {
    if i > 0 {
      LastNamedExists(fs[1..], i - 1);
    }
  }

  lemma {:induction false} FindSelf(rs: seq<Register>, k: nat)
    requires GoodMap(rs) && k < |rs|
    ensures Find(rs, rs[k].name) == Some(rs[k])
  {
    if k < |rs| - 1 {
      FindSelf(rs[..|rs| - 1], k);
    }
  }

  lemma SelfDiffers(r: Register)
    ensures Differs(r, r) <==> !NamesAgree(r)
  {
    forall i | 0 <= i < |r.fields| ensures LastNamed(r.fields, r.fields[i].name) != None {
      LastNamedExists(r.fields, i);
    }
  }

  lemma SelfRows(rs: seq<Register>, row: Row)
    requires GoodMap(rs) && (forall k :: 0 <= k < |rs| ==> NamesAgree(rs[k]))
    ensures !Belongs(row, rs, rs)
  {
    forall r | r in rs ensures ChangeOf(r, rs) == AdditionOf(r, rs) == RemovalOf(r, rs) == [] {
      var k: nat :| k < |rs| && rs[k] == r;
      FindSelf(rs, k);
      SelfDiffers(r);
    }
  }

  lemma SelfRowShown(rs: seq<Register>, k: nat)
    requires GoodMap(rs) && k < |rs| && !NamesAgree(rs[k])
    ensures Shown(rs, rs) != []
  {
    FindSelf(rs, k);
    SelfDiffers(rs[k]);
    var row := Row(Into, rs[k], rs[k].address * 10 + 3);
    assert ChangeOf(rs[k], rs)[1] == row;
    ShownExact(rs, rs, row);
  }

  /** Comparing a map with itself shows nothing exactly when, in every register, fields that
      share a name agree with the last of that name. */
  lemma SelfDiffEmptyIff(rs: seq<Register>)
    requires GoodMap(rs)
    ensures Shown(rs, rs) == [] <==> forall k :: 0 <= k < |rs| ==> NamesAgree(rs[k])
  {
    if forall k :: 0 <= k < |rs| ==> NamesAgree(rs[k]) {
      var ss := Shown(rs, rs);
      if ss != [] {
        ShownExact(rs, rs, ss[0]);
        SelfRows(rs, ss[0]);
      }
    } else {
      var k: nat :| k < |rs| && !NamesAgree(rs[k]);
      SelfRowShown(rs, k);
    }
  }

  // ---------------------------------------------------------------- the loops

  method CompareField(f: BitField, fs: seq<BitField>)
    returns (mismatch: bool, moved: bool, retyped: bool, inputRetyped: bool, mark: string)
    ensures mismatch == !Matched(f, fs) && moved == Moved(f, fs)
    ensures retyped == TypeChanged(f, fs) && inputRetyped == InputRetyped(f, fs) && mark == MarkOf(f, fs)
  {
    match LastNamed(fs, f.name)
    case None =>
      return true, false, false, false, "Added";
    case Some(g) =>
      retyped := f.kind != g.kind;
      inputRetyped := retyped && IsInput(g.kind);
      moved := f.range != g.range || f.value != g.value;
      mismatch := retyped || moved || f.desc != g.desc;
      mark := if retyped || f.range != g.range || f.desc != g.desc then "Into" else "";
  }

  /** Goes over the fields of both registers, as the comparison does. */
  method Compare(r: Register, d: Register) returns (differs: bool, incompatible: bool, marks: seq<string>)
    ensures |marks| == |r.fields| && forall i :: 0 <= i < |marks| ==> marks[i] == MarkOf(r.fields[i], d.fields)
    ensures differs <==> Differs(r, d)
    ensures incompatible <==> Incompatible(r, d)
  {
    var mismatch, moved, retyped, inputRetyped := false, false, false, false;
    marks := [];
    for i := 0 to |r.fields|
      invariant |marks| == i && forall k :: 0 <= k < i ==> marks[k] == MarkOf(r.fields[k], d.fields)
      invariant mismatch <==> exists k :: 0 <= k < i && !Matched(r.fields[k], d.fields)
      invariant moved <==> exists k :: 0 <= k < i && Moved(r.fields[k], d.fields)
      invariant retyped <==> exists k :: 0 <= k < i && TypeChanged(r.fields[k], d.fields)
      invariant inputRetyped <==> exists k :: 0 <= k < i && InputRetyped(r.fields[k], d.fields)
    {
      var bad, off, typeChanged, input, mark := CompareField(r.fields[i], d.fields);
      mismatch, moved := mismatch || bad, moved || off;
      retyped, inputRetyped := retyped || typeChanged, inputRetyped || input;
      marks := marks + [mark];
    }
    var removed := false;
    for i := 0 to |d.fields|
      invariant removed <==> exists k :: 0 <= k < i && LastNamed(r.fields, d.fields[k].name) == None
    {
      if LastNamed(r.fields, d.fields[i].name) == None {
        removed := true;
      }
    }
    differs := mismatch || removed || r.address != d.address || r.endpoints != d.endpoints;
    incompatible := inputRetyped || removed || r.address != d.address || r.endpoints != d.endpoints || moved
                    || (retyped && IsInput(d.kind));
  }

  method CollectChanges(after: seq<Register>, before: seq<Register>) returns (all: seq<Row>)
    ensures all == Changes(after, before)
  {
    all := [];
    for i := 0 to |after|
      invariant all == Changes(after[..i], before)
    {
      assert after[..i + 1][..i] == after[..i];
      match Find(before, after[i].name)
      case None =>
      case Some(d) =>
        var differs, _, _ := Compare(after[i], d);
        if differs {
          all := all + [Row(Changed, d, after[i].address * 10 + 2), Row(Into, after[i], after[i].address * 10 + 3)];
        }
    }
    assert after[..|after|] == after;
  }

  method AppendAdditions(rows: seq<Row>, after: seq<Register>, before: seq<Register>) returns (all: seq<Row>)
    ensures all == rows + Additions(after, before)
  {
    all := rows;
    for i := 0 to |after|
      invariant all == rows + Additions(after[..i], before)
    {
      assert after[..i + 1][..i] == after[..i];
      if Find(before, after[i].name) == None {
        all := all + [Row(Added, after[i], after[i].address * 10 + 4)];
      }
    }
    assert after[..|after|] == after;
  }

  method AppendRemovals(rows: seq<Row>, before: seq<Register>, after: seq<Register>) returns (all: seq<Row>)
    ensures all == rows + Removals(before, after)
  {
    all := rows;
    for i := 0 to |before|
      invariant all == rows + Removals(before[..i], after)
    {
      assert before[..i + 1][..i] == before[..i];
      if Find(after, before[i].name) == None {
        all := all + [Row(Removed, before[i], before[i].address * 10 + 1)];
      }
    }
    assert before[..|before|] == before;
  }

  /** The whole comparison: the rows in display order and the sequence number of each. */
  method Diff(after: seq<Register>, before: seq<Register>) returns (rows: seq<Row>, numbers: seq<nat>)
    ensures rows == Shown(after, before) && |numbers| == |rows|
    ensures forall i :: 0 <= i < |rows| ==> numbers[i] == NumberOf(rows, i)
  {
    rows := CollectChanges(after, before);
    rows := AppendAdditions(rows, after, before);
    rows := AppendRemovals(rows, before, after);
    rows := SortRows(rows);
    numbers := NumberRows(rows);
  }

  method NumberRows(rows: seq<Row>) returns (numbers: seq<nat>)
    ensures |numbers| == |rows| && forall i :: 0 <= i < |rows| ==> numbers[i] == NumberOf(rows, i)
  {
    var sequence := 0;
    numbers := [];
    for i := 0 to |rows|
      invariant |numbers| == i && sequence == NumberOf(rows, i)
      invariant forall k :: 0 <= k < i ==> numbers[k] == NumberOf(rows, k)
    {
      numbers := numbers + [sequence];
      if rows[i].mark != Changed {
        sequence := sequence + 1;
      }
    }
  }
}
