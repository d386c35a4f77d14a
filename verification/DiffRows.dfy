/** What a comparison of two register maps shows of each register, in terms of names, addresses
    and fields alone. */
module DiffRows {
  import opened Wrappers
  import opened MapDiff

  // ---------------------------------------------------------------- when registers differ

  /** `g` is the last of `fs` with that name. */
  ghost predicate LastOf(fs: seq<BitField>, name: string, g: BitField) {
    g.name == name && exists i :: LastAt(fs, name, g, i)
  }

  ghost predicate LastAt(fs: seq<BitField>, name: string, g: BitField, i: int) {
    0 <= i < |fs| && fs[i] == g && forall j :: i < j < |fs| ==> fs[j].name != name
  }

  lemma {:induction false} LastNamedIs(fs: seq<BitField>, name: string)
    ensures match LastNamed(fs, name)
            case None => forall i :: 0 <= i < |fs| ==> fs[i].name != name
            case Some(g) => LastOf(fs, name, g)
  {
    if fs != [] {
      LastNamedIs(fs[1..], name);
      match LastNamed(fs[1..], name)
      case Some(g) =>
        var i :| LastAt(fs[1..], name, g, i);
        assert forall j :: i + 1 < j < |fs| ==> fs[j] == fs[1..][j - 1];
        assert LastAt(fs, name, g, i + 1);
      case None =>
        assert forall j :: 0 < j < |fs| ==> fs[j] == fs[1..][j - 1];
        if fs[0].name == name {
          assert LastAt(fs, name, fs[0], 0);
        }
    }
  }

  lemma LastNamedIff(fs: seq<BitField>, name: string, g: BitField)
    ensures LastNamed(fs, name) == Some(g) <==> LastOf(fs, name, g)
    ensures LastNamed(fs, name) == None <==> forall f :: f in fs ==> f.name != name
  {
    LastNamedIs(fs, name);
    if LastOf(fs, name, g) {
      var i :| LastAt(fs, name, g, i);
      var h := LastNamed(fs, name).value;
      var k :| LastAt(fs, name, h, k);
    }
  }

  /** Two registers agree: same address and endpoints, every field of the new one equal to the
      last old one of its name, and every old field still there by name. */
  ghost predicate Same(r: Register, d: Register) {
    && r.address == d.address && r.endpoints == d.endpoints
    && (forall f :: f in r.fields ==> LastOf(d.fields, f.name, f))
    && (forall g :: g in d.fields ==> exists f :: f in r.fields && f.name == g.name)
  }

  lemma DiffersIff(r: Register, d: Register)
    ensures Differs(r, d) <==> !Same(r, d)
  {
    forall f | f in r.fields
      ensures Matched(f, d.fields) <==> LastOf(d.fields, f.name, f)
    {
      LastNamedIff(d.fields, f.name, f);
      LastNamedIs(d.fields, f.name);
    }
    forall g | g in d.fields
      ensures LastNamed(r.fields, g.name) == None <==> !exists f :: f in r.fields && f.name == g.name
    {
      LastNamedIff(r.fields, g.name, g);
    }
    if Differs(r, d) && r.address == d.address && r.endpoints == d.endpoints {
      if i :| 0 <= i < |r.fields| && !Matched(r.fields[i], d.fields) {
        assert r.fields[i] in r.fields;
      } else {
        var i :| 0 <= i < |d.fields| && LastNamed(r.fields, d.fields[i].name) == None;
        assert d.fields[i] in d.fields;
      }
    }
  }

  /** Programs for `d` keep working with `r`: nothing has moved, gone or got another value, and
      no field has another type unless neither it nor its register used to be written or
      triggered. */
  ghost predicate Compatible(r: Register, d: Register) {
    && r.address == d.address && r.endpoints == d.endpoints
    && (forall f, g :: f in r.fields && LastOf(d.fields, f.name, g) ==>
          && f.range == g.range && f.value == g.value
          && (f.kind == g.kind || (g.kind !in {"W", "T"} && d.kind !in {"W", "T"})))
    && (forall g :: g in d.fields ==> exists f :: f in r.fields && f.name == g.name)
  }

  /** A field of the new register that keeps programs working. */
  ghost predicate Harmless(f: BitField, d: Register) {
    !Moved(f, d.fields) && !InputRetyped(f, d.fields) && (IsInput(d.kind) ==> !TypeChanged(f, d.fields))
  }

  lemma HarmlessIff(f: BitField, d: Register)
    ensures Harmless(f, d) <==>
      forall g :: LastOf(d.fields, f.name, g) ==>
        && f.range == g.range && f.value == g.value
        && (f.kind == g.kind || (g.kind !in {"W", "T"} && d.kind !in {"W", "T"}))
  {
    forall g ensures LastOf(d.fields, f.name, g) <==> LastNamed(d.fields, f.name) == Some(g) {
      LastNamedIff(d.fields, f.name, g);
    }
  }

  lemma IncompatibleIff(r: Register, d: Register)
    ensures Incompatible(r, d) <==> !Compatible(r, d)
  {
    forall f | f in r.fields
      ensures Harmless(f, d) <==>
        forall g :: LastOf(d.fields, f.name, g) ==>
          && f.range == g.range && f.value == g.value
          && (f.kind == g.kind || (g.kind !in {"W", "T"} && d.kind !in {"W", "T"}))
    {
      HarmlessIff(f, d);
    }
    forall g | g in d.fields
      ensures LastNamed(r.fields, g.name) == None <==> !exists f :: f in r.fields && f.name == g.name
    {
      LastNamedIff(r.fields, g.name, g);
    }
    assert Incompatible(r, d) <==>
      || r.address != d.address || r.endpoints != d.endpoints
      || (exists f :: f in r.fields && !Harmless(f, d))
      || (exists g :: g in d.fields && LastNamed(r.fields, g.name) == None);
  }

  /** The marks of the new register's fields: "Added" without an old field of the name, "Into"
      if type, range or description are not those of the last such field, and none otherwise. */
  lemma MarkIff(f: BitField, fs: seq<BitField>)
    ensures MarkOf(f, fs) == "Added" <==> forall g :: g in fs ==> g.name != f.name
    ensures MarkOf(f, fs) == "Into" <==>
      exists g :: LastOf(fs, f.name, g) && (g.kind != f.kind || g.range != f.range || g.desc != f.desc)
    ensures MarkOf(f, fs) in {"Added", "Into", ""}
  {
    LastNamedIff(fs, f.name, f);
    forall g ensures LastOf(fs, f.name, g) <==> LastNamed(fs, f.name) == Some(g) {
      LastNamedIff(fs, f.name, g);
    }
  }

  // ---------------------------------------------------------------- what is shown of a register

  /** The rows about registers of that name, in their order. */
  function Named(rows: seq<Row>, name: string): seq<Row> {
    if rows == [] then []
    else (if rows[0].register.name == name then [rows[0]] else []) + Named(rows[1..], name)
  }

  lemma {:induction false} NamedMember(rows: seq<Row>, name: string, row: Row)
    ensures row in Named(rows, name) <==> row in rows && row.register.name == name
  {
    if rows != [] {
      NamedMember(rows[1..], name, row);
    }
  }

  lemma StrictCons(row: Row, rows: seq<Row>)
    requires StrictKeys(rows) && forall r :: r in rows ==> row.key < r.key
    ensures StrictKeys([row] + rows)
  {
  }

  lemma {:induction false} NamedStrict(rows: seq<Row>, name: string)
    requires StrictKeys(rows)
    ensures StrictKeys(Named(rows, name))
  {
    if rows != [] {
      NamedStrict(rows[1..], name);
      forall r | r in Named(rows[1..], name) ensures rows[0].key < r.key {
        NamedMember(rows[1..], name, r);
      }
      if rows[0].register.name == name {
        StrictCons(rows[0], Named(rows[1..], name));
      } else {
        assert [] + Named(rows[1..], name) == Named(rows[1..], name);
      }
    }
  }

  /** Strictly ordered rows are known once their members are. */
  lemma {:induction false} StrictDetermined(xs: seq<Row>, ys: seq<Row>)
    requires StrictKeys(xs) && StrictKeys(ys) && forall row :: row in xs <==> row in ys
    ensures xs == ys
  {
    assert ys != [] ==> ys[0] in xs;
    assert xs != [] ==> xs[0] in ys;
    if xs != [] {
      var i :| 0 <= i < |ys| && ys[i] == xs[0];
      var j :| 0 <= j < |xs| && xs[j] == ys[0];
      assert i == 0;
      TailMembers(xs, ys);
      StrictDetermined(xs[1..], ys[1..]);
    }
  }

  lemma TailMembers(xs: seq<Row>, ys: seq<Row>)
    requires StrictKeys(xs) && StrictKeys(ys) && (forall row :: row in xs <==> row in ys)
    requires xs != [] && ys != [] && xs[0] == ys[0]
    ensures forall row :: row in xs[1..] <==> row in ys[1..]
  {
    forall row
      ensures row in xs[1..] <==> row in xs && row != xs[0]
      ensures row in ys[1..] <==> row in ys && row != ys[0]
    {
      assert xs == [xs[0]] + xs[1..] && ys == [ys[0]] + ys[1..];
    }
  }

  /** What a comparison should show under a name: one row for a register that only one map has,
      the old and the new side for one that both have and that differs, nothing otherwise. */
  ghost predicate Expected(rows: seq<Row>, after: seq<Register>, before: seq<Register>, name: string) {
    && (forall r :: r in after && r.name == name && (forall d :: d in before ==> d.name != name) ==>
          rows == [Row(Added, r, r.address * 10 + 4)])
    && (forall d :: d in before && d.name == name && (forall r :: r in after ==> r.name != name) ==>
          rows == [Row(Removed, d, d.address * 10 + 1)])
    && (forall r, d :: r in after && d in before && r.name == d.name == name ==>
          rows == if Same(r, d) then [] else [Row(Changed, d, r.address * 10 + 2), Row(Into, r, r.address * 10 + 3)])
    && ((forall r :: r in after ==> r.name != name) && (forall d :: d in before ==> d.name != name) ==> rows == [])
  }

  lemma FindIff(rs: seq<Register>, name: string, r: Register)
    requires GoodMap(rs)
    ensures Find(rs, name) == Some(r) <==> r in rs && r.name == name
    ensures Find(rs, name) == None <==> forall q :: q in rs ==> q.name != name
  {
    FindNamed(rs, name);
    if q :| q in rs && q.name == name {
      var k: nat :| k < |rs| && rs[k] == q;
      FindSelf(rs, k);
    }
    if r in rs && r.name == name {
      var k: nat :| k < |rs| && rs[k] == r;
      FindSelf(rs, k);
    }
  }

  /** The same by dictionary lookup. */
  ghost function ByName(after: seq<Register>, before: seq<Register>, name: string): seq<Row> {
    match (Find(after, name), Find(before, name))
    case (Some(r), None) => [Row(Added, r, r.address * 10 + 4)]
    case (None, Some(d)) => [Row(Removed, d, d.address * 10 + 1)]
    case (Some(r), Some(d)) =>
      if Same(r, d) then [] else [Row(Changed, d, r.address * 10 + 2), Row(Into, r, r.address * 10 + 3)]
    case (None, None) => []
  }

  lemma AfterRows(after: seq<Register>, before: seq<Register>, name: string, row: Row)
    requires GoodMap(after) && GoodMap(before) && row.register.name == name
    ensures (exists r :: r in after && row in ChangeOf(r, before))
            || (exists r :: r in after && row in AdditionOf(r, before))
            <==> Find(after, name).Some? && row in ChangeOf(Find(after, name).value, before)
                                                   + AdditionOf(Find(after, name).value, before)
  {
    FindNamed(after, name);
    forall r | r in after && (row in ChangeOf(r, before) || row in AdditionOf(r, before))
      ensures Find(after, name) == Some(r)
    {
      FindNamed(before, r.name);
      FindIff(after, name, r);
    }
  }

  lemma BeforeRows(after: seq<Register>, before: seq<Register>, name: string, row: Row)
    requires GoodMap(before) && row.register.name == name
    ensures (exists d :: d in before && row in RemovalOf(d, after))
            <==> Find(before, name).Some? && row in RemovalOf(Find(before, name).value, after)
  {
    FindNamed(before, name);
    forall d | d in before && row in RemovalOf(d, after) ensures Find(before, name) == Some(d) {
      FindIff(before, name, d);
    }
  }

  lemma ByNameMember(after: seq<Register>, before: seq<Register>, name: string, row: Row)
    requires GoodMap(after) && GoodMap(before)
    ensures row in ByName(after, before, name) <==> Belongs(row, after, before) && row.register.name == name
  {
    FindNamed(after, name);
    FindNamed(before, name);
    if row.register.name == name {
      AfterRows(after, before, name, row);
      BeforeRows(after, before, name, row);
      if Find(after, name).Some? && Find(before, name).Some? {
        DiffersIff(Find(after, name).value, Find(before, name).value);
      }
    }
  }

  lemma ByNameExpected(after: seq<Register>, before: seq<Register>, name: string)
    requires GoodMap(after) && GoodMap(before)
    ensures Expected(ByName(after, before, name), after, before, name)
  {
    forall r ensures Find(after, name) == Some(r) <==> r in after && r.name == name { FindIff(after, name, r); }
    forall d ensures Find(before, name) == Some(d) <==> d in before && d.name == name { FindIff(before, name, d); }
    FindNamed(after, name);
    FindNamed(before, name);
  }

  lemma ByNameStrict(after: seq<Register>, before: seq<Register>, name: string)
    ensures StrictKeys(ByName(after, before, name))
  {
  }

  /** What a comparison of good maps shows of each name: `Expected` speaks of the registers of
      the two maps alone, so nothing is shown twice, left out or shown under another mark. */
  lemma ShownByName(after: seq<Register>, before: seq<Register>, name: string)
    requires GoodMap(after) && GoodMap(before)
    ensures Expected(Named(Shown(after, before), name), after, before, name)
  {
    var rows := Named(Shown(after, before), name);
    AllOrdered(after, before);
    NamedStrict(Shown(after, before), name);
    forall row ensures row in rows <==> row in ByName(after, before, name) {
      NamedMember(Shown(after, before), name, row);
      ShownExact(after, before, row);
      ByNameMember(after, before, name, row);
    }
    ByNameStrict(after, before, name);
    StrictDetermined(rows, ByName(after, before, name));
    ByNameExpected(after, before, name);
  }

  /** Every row shown is about a register of one of the maps. */
  lemma ShownFromMaps(after: seq<Register>, before: seq<Register>, row: Row)
    requires row in Shown(after, before)
    ensures row.register in after || row.register in before
  {
    ShownExact(after, before, row);
    forall r | r in after { FindNamed(before, r.name); }
  }
}
