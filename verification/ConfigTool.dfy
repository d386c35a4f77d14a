/** The register access of `WupperCard` and the store and load commands of `wupper-config`
    as they run: registers written in place, the line buffer cut in place. */
module ConfigTool {
  import opened Wrappers
  import opened Words
  import opened BitFields
  import opened ConfigText
  import opened ConfigStore

  const NUL: char := 0 as char

  ghost predicate NoNul(s: string) { forall i :: 0 <= i < |s| ==> s[i] != NUL }

  /** `buffer` holds the C string `s`. */
  ghost predicate Holds(buffer: array<char>, s: string)
    reads buffer
  {
    |s| < buffer.Length && NoNul(s) && buffer[..|s|] == s && buffer[|s|] == NUL
  }

  /** The C string that starts at `from`, which is `s`. */
  method CString(buffer: array<char>, from: nat, ghost s: string) returns (t: string)
    requires from + |s| < buffer.Length && NoNul(s) && buffer[from + |s|] == NUL
    requires forall i :: 0 <= i < |s| ==> buffer[from + i] == s[i]
    ensures t == s
  {
    t := "";
    while buffer[from + |t|] != NUL
      invariant |t| <= |s| && t == s[..|t|]
      invariant buffer[from + |t|] == if |t| < |s| then s[|t|] else NUL
      decreases |s| - |t|
    {
      t := t + [buffer[from + |t|]];
    }
  }

  /** Every white-space character of the string becomes NUL, so the first one ends it. */
  method BlankSpaces(buffer: array<char>, ghost s: string)
    requires Holds(buffer, s)
    modifies buffer
    ensures Holds(buffer, UpToSpace(s))
    ensures forall j :: |s| <= j < buffer.Length ==> buffer[j] == old(buffer[j])
  {
    ghost var key := UpToSpace(s);
    var i := 0;
    while buffer[i] != NUL
      invariant i <= |s| && buffer[|s|] == NUL
      invariant forall j :: i <= j < |s| ==> buffer[j] == s[j]
      invariant forall j :: 0 <= j < i ==> buffer[j] == if IsSpace(s[j]) then NUL else s[j]
      invariant forall j :: |s| <= j < buffer.Length ==> buffer[j] == old(buffer[j])
      decreases |s| - i
    {
      if IsSpace(buffer[i]) {
        buffer[i] := NUL;
      }
      i := i + 1;
    }
    assert forall j :: 0 <= j < |key| ==> key[j] == s[j] && !IsSpace(s[j]);
    assert buffer[..|key|] == key;
  }

  /** split_key_value: write NUL over the '=' and over the white space before it, so that the
      buffer starts with the key as a C string, and parse the rest. */
  method CutKeyValue(buffer: array<char>, ghost s: string) returns (res: Result<nat, Error>)
    requires Holds(buffer, s)
    modifies buffer
    ensures match SplitKeyValue(s)
            case Err(e) => res == Err(e)
            case Ok((key, value)) => res == Ok(value) && Holds(buffer, key)
  {
    ghost var k := IndexOf(s, '=');
    var pos := 0;
    while buffer[pos] != NUL && buffer[pos] != '='
      invariant pos <= k
      invariant forall i :: 0 <= i < |s| ==> buffer[i] == s[i]
      decreases |s| - pos
    {
      assert buffer[pos] == s[pos];
      pos := pos + 1;
    }
    assert pos < |s| ==> buffer[pos] == s[pos];
    if buffer[pos] == NUL {
      return Err(NoEquals);
    }
    buffer[pos] := NUL;
    BlankSpaces(buffer, s[..pos]);
    var number := CString(buffer, pos + 1, s[pos + 1..]);
    res := Ok(ParseNumber(number));
  }

  /** Remove leading white space by moving the start pointer. */
  method TrimLeft(line: string) returns (s: string)
    ensures s == SkipSpaces(line) && |s| <= |line| && s == line[|line| - |s|..]
  {
    var start := 0;
    while start < |line| && IsSpace(line[start])
      invariant start <= |line| && SkipSpaces(line[start..]) == SkipSpaces(line)
    {
      assert line[start..][1..] == line[start + 1..];
      start := start + 1;
    }
    s := line[start..];
  }

  /** Copy a line into a buffer and cut it there. */
  method ParseLine(s: string) returns (res: Result<(string, nat), Error>)
    requires NoNul(s)
    ensures res == SplitKeyValue(s)
  {
    var buffer := new char[|s| + 1](i => if 0 <= i < |s| then s[i] else NUL);
    var value := CutKeyValue(buffer, s);
    if value.Err? {
      return Err(value.error);
    }
    ghost var key := SplitKeyValue(s).value.0;
    assert forall i :: 0 <= i < |key| ==> buffer[i] == buffer[..|key|][i];
    var cut := CString(buffer, 0, key);
    res := Ok((cut, value.value));
  }

  /** The mapped registers of an open card and its bit-field table. */
  class WupperCard {
    const table: seq<Field>
    var regs: Registers

    ghost predicate Valid()
      reads this
    {
      Mapped(table, regs)
    }

    constructor (table: seq<Field>, regs: Registers)
      requires Mapped(table, regs)
      ensures Valid() && this.table == table && this.regs == regs
    {
      this.table, this.regs := table, regs;
    }

    /** cfg_bitfield: canonicalise the name, then search the table. */
    method CfgBitfield(name: string) returns (res: Option<Field>)
      ensures res == FindField(table, name)
      ensures res.Some? ==> res.value in table
    {
      var namestr := "";
      for i := 0 to |name|
        invariant namestr == Canonical(name)[..i]
      {
        var c := Upper(name[i]);
        namestr := namestr + [if c == '-' then '_' else c];
      }
      assert namestr == Canonical(name);
      var k := 0;
      while k < |table| && table[k].name != namestr
        invariant k <= |table| && Lookup(table, namestr) == Lookup(table[k..], namestr)
      {
        k := k + 1;
      }
      res := if k < |table| then Some(table[k]) else None;
    }

    method CfgGetOption(name: string) returns (res: Result<nat, Error>)
      requires Valid()
      ensures res == GetOption(table, regs, name)
    {
      var bf := CfgBitfield(name);
      if bf.None? {
        return Err(NotFound);
      }
      if !bf.value.readable {
        return Err(NotReadable);
      }
      var regvalue := regs[bf.value.address];
      res := Ok(Shr(And(regvalue, bf.value.mask), bf.value.shift));
    }

    method CfgSetOption(name: string, value: nat) returns (error: Option<Error>)
      requires Valid()
      modifies this
      ensures Valid()
      ensures match SetOption(table, old(regs), name, value)
              case Err(e) => error == Some(e) && regs == old(regs)
              case Ok(r) => error == None && regs == r
    {
      var bf := CfgBitfield(name);
      if bf.None? {
        return Some(NotFound);
      }
      if !bf.value.writable {
        return Some(NotWriteable);
      }
      if value > Shr(bf.value.mask, bf.value.shift) {
        return Some(OutOfRange);
      }
      var regvalue := regs[bf.value.address];
      regvalue := AndNot(regvalue, bf.value.mask);
      regvalue := Or(regvalue, And(Shl(value, bf.value.shift), bf.value.mask));
      regs := regs[bf.value.address := regvalue];
      error := None;
    }

    /** cmd_store */
    method CmdStore() returns (res: Result<string, Error>)
      requires Valid()
      ensures res == StoreText(table, table, regs)
    {
      var text := "";
      assert table[0..] == table;
      assert forall t: string :: "" + t == t;
      for i := 0 to |table|
        invariant StoreText(table, table, regs) == Prefixed(text, StoreText(table, table[i..], regs))
      {
        var bf := table[i];
        assert table[i..][1..] == table[i + 1..];
        if bf.writable && bf.readable {
          var value := CfgGetOption(bf.name);
          if value.Err? {
            return Err(value.error);
          }
          ghost var rest := StoreText(table, table[i + 1..], regs);
          assert rest.Ok? ==>
                 text + (Line(bf.name, value.value) + rest.value) == text + Line(bf.name, value.value) + rest.value;
          text := text + Line(bf.name, value.value);
        }
      }
      assert table[|table|..] == [] && text + "" == text;
      res := Ok(text);
    }

    /** One line of cmd_load, in its own buffer, and by how much its start has been moved. */
    method LoadOneLine(line: string) returns (error: Option<Error>, lead: nat)
      requires Valid() && NoNul(line)
      modifies this
      ensures Valid()
      ensures match LoadLine(table, old(regs), line)
              case Err(e) => error == Some(e) && regs == old(regs)
              case Ok(r) => error == None && regs == r
      ensures lead == Lead(line)
    {
      var s := TrimLeft(line);
      lead := |line| - |s|;
      var entry := ParseLine(s);
      if entry.Err? {
        return Some(entry.error), lead;
      }
      var (key, value) := entry.value;
      if IsSleep(key) {
        error := None;
      } else {
        error := CfgSetOption(key, value);
      }
    }

    /** cmd_load: line by line until the text ends or an exception leaves the loop.  `moved` is how
        far the line pointer is from its buffer in the end; the source is well defined only for
        texts that leave it there. */
    method CmdLoad(text: string) returns (error: Option<Error>, moved: nat)
      requires Valid() && NoNul(text)
      modifies this
      ensures Valid()
      ensures (regs, error) == LoadLines(table, old(regs), Lines(text))
      ensures moved == PointerMoved(table, old(regs), Lines(text))
    {
      var rest := text;
      error, moved := None, 0;
      while rest != ""
        invariant Valid() && NoNul(rest) && error == None
        invariant LoadLines(table, old(regs), Lines(text)) == LoadLines(table, regs, Lines(rest))
        invariant PointerMoved(table, old(regs), Lines(text)) == moved + PointerMoved(table, regs, Lines(rest))
        decreases |rest|
      {
        var k := IndexOf(rest, '\n');
        var line := if k == |rest| then rest else rest[..k + 1];
        var lead;
        error, lead := LoadOneLine(line);
        moved := moved + lead;
        assert Lines(rest)[0] == line;
        if error.Some? {
          return;
        }
        rest := if k == |rest| then "" else rest[k + 1..];
      }
    }
  }

  ghost function Prefixed(text: string, res: Result<string, Error>): Result<string, Error> {
    match res
    case Err(e) => Err(e)
    case Ok(more) => Ok(text + more)
  }
}
