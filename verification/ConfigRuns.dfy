/** What storing prints and what loading does, line by line. */
module ConfigRuns {
  import opened Wrappers
  import opened Words
  import opened BitFields
  import opened ConfigText
  import opened ConfigStore
  import opened NumberText

  // ---------------------------------------------------------------- storing

  /** The positions from `from` on of the fields that can be both read and written. */
  function StoredFrom(table: seq<Field>, from: nat): (ks: seq<nat>)
    requires from <= |table|
    ensures forall i :: 0 <= i < |ks| ==> from <= ks[i] < |table|
    decreases |table| - from
  {
    if from == |table| then []
    else (if table[from].readable && table[from].writable then [from] else []) + StoredFrom(table, from + 1)
  }

  lemma {:induction false} StoredExact(table: seq<Field>, from: nat, k: nat)
    requires from <= |table|
    ensures k in StoredFrom(table, from) <==> from <= k < |table| && table[k].readable && table[k].writable
    ensures forall i, j :: 0 <= i < j < |StoredFrom(table, from)| ==>
            StoredFrom(table, from)[i] < StoredFrom(table, from)[j]
    decreases |table| - from
  {
    if from < |table| {
      StoredExact(table, from + 1, k);
    }
  }

  /** The line of a field: its name, "=0x", the value in lower-case hexadecimal, a newline. */
  function LineFor(f: Field, regs: Registers): string
    requires f.address in regs
  {
    f.name + "=0x" + Digits(GetBits(regs[f.address], f), 16, false) + "\n"
  }

  ghost predicate Prints(lines: seq<string>, table: seq<Field>, ks: seq<nat>, regs: Registers)
    requires Mapped(table, regs) && forall i :: 0 <= i < |ks| ==> ks[i] < |table|
  {
    |lines| == |ks| && forall i :: 0 <= i < |ks| ==> lines[i] == LineFor(table[ks[i]], regs)
  }

  lemma {:induction false} StoreFrom(table: seq<Field>, from: nat, regs: Registers)
    requires GoodTable(table) && Mapped(table, regs) && from <= |table|
    ensures StoreText(table, table[from..], regs).Ok?
    ensures Prints(Lines(StoreText(table, table[from..], regs).value), table, StoredFrom(table, from), regs)
    decreases |table| - from
  {
    if from < |table| {
      StoreFrom(table, from + 1, regs);
      StoreStep(table, from, regs);
      if Stored(table[from]) {
        var lines := Lines(StoreText(table, table[from + 1..], regs).value);
        PrintsCons(lines, table, StoredFrom(table, from + 1), regs, from);
      }
    }
  }

  lemma StoreStep(table: seq<Field>, from: nat, regs: Registers)
    requires GoodTable(table) && Mapped(table, regs) && from < |table|
    requires StoreText(table, table[from + 1..], regs).Ok?
    ensures var rest := StoreText(table, table[from + 1..], regs).value;
      && StoreText(table, table[from..], regs).Ok?
      && Lines(StoreText(table, table[from..], regs).value)
         == if Stored(table[from]) then [LineFor(table[from], regs)] + Lines(rest) else Lines(rest)
  {
    var f := table[from];
    assert table[from..][1..] == table[from + 1..] && f in table;
    if Stored(f) {
      FindSelf(table, f);
      HexIs(GetBits(regs[f.address], f));
      LinesOfPrinted(f.name, GetBits(regs[f.address], f), StoreText(table, table[from + 1..], regs).value);
    }
  }

  lemma PrintsCons(lines: seq<string>, table: seq<Field>, ks: seq<nat>, regs: Registers, k: nat)
    requires Mapped(table, regs) && k < |table| && forall i :: 0 <= i < |ks| ==> ks[i] < |table|
    requires Prints(lines, table, ks, regs)
    ensures Prints([LineFor(table[k], regs)] + lines, table, [k] + ks, regs)
  {
    var more := [LineFor(table[k], regs)] + lines;
    forall i | 0 <= i < |more| ensures more[i] == LineFor(table[([k] + ks)[i]], regs) {
      assert i > 0 ==> more[i] == lines[i - 1] && ([k] + ks)[i] == ks[i - 1];
    }
  }

  /** Storing writes one line for each field that can be read and written, in the order of the
      table, and nothing else. */
  lemma StoreLines(table: seq<Field>, regs: Registers)
    requires GoodTable(table) && Mapped(table, regs)
    ensures StoreText(table, table, regs).Ok?
    ensures Prints(Lines(StoreText(table, table, regs).value), table, StoredFrom(table, 0), regs)
  {
    assert table[0..] == table;
    StoreFrom(table, 0, regs);
  }

  // ---------------------------------------------------------------- loading

  /** What a line with an '=' does: white space around the key does not matter, a sleep setting
      touches no register, and any other key is the name of a field to set. */
  lemma LineOutcome(table: seq<Field>, regs: Registers, pad: string, key: string, gap: string, number: string)
    requires Mapped(table, regs) && Blank(pad) && PlainName(key) && key != ""
    requires (forall i :: 0 <= i < |gap| ==> gap[i] != '=') && (gap != "" ==> IsSpace(gap[0]))
    ensures LoadLine(table, regs, pad + (key + gap + "=" + number))
            == if key == "sleep" || key == "SLEEP" then Ok(regs)
               else SetOption(table, regs, key, ParseNumber(number))
  {
    var line := key + gap + "=" + number;
    assert line[0] == key[0];
    SkipBlank(pad, line);
    SplitAny(key, gap, number);
  }

  /** A line without '=' is refused and changes nothing. */
  lemma LineWithoutEquals(table: seq<Field>, regs: Registers, line: string)
    requires Mapped(table, regs) && '=' !in line
    ensures LoadLine(table, regs, line) == Err(NoEquals)
  {
    Skipped(line);
  }

  lemma {:induction false} Skipped(line: string)
    ensures forall c :: c in SkipSpaces(line) ==> c in line
  {
    if line != "" && IsSpace(line[0]) {
      Skipped(line[1..]);
    }
  }

  /** Lines that load without an error can be loaded first. */
  lemma {:induction false} LoadInTwo(table: seq<Field>, regs: Registers, first: seq<string>, more: seq<string>)
    requires Mapped(table, regs) && LoadLines(table, regs, first).1 == None
    ensures LoadLines(table, regs, first + more) == LoadLines(table, LoadLines(table, regs, first).0, more)
    decreases |first|
  {
    if first == [] {
      assert first + more == more;
    } else {
      assert (first + more)[1..] == first[1..] + more;
      LoadInTwo(table, LoadLine(table, regs, first[0]).value, first[1..], more);
    }
  }

  /** The first line that is refused ends the loading: its error is reported, the registers
      keep what the lines before it have written, and the lines behind it do nothing. */
  lemma LoadStops(table: seq<Field>, regs: Registers, first: seq<string>, bad: string, more: seq<string>)
    requires Mapped(table, regs) && LoadLines(table, regs, first).1 == None
    requires LoadLine(table, LoadLines(table, regs, first).0, bad).Err?
    ensures LoadLines(table, regs, first + ([bad] + more))
            == (LoadLines(table, regs, first).0, Some(LoadLine(table, LoadLines(table, regs, first).0, bad).error))
  {
    LoadInTwo(table, regs, first, [bad] + more);
  }

  ghost predicate Starts(lines: seq<string>, i: nat)
    requires i < |lines|
  {
    lines[i] != "" && IsSpace(lines[i][0])
  }

  /** Loading leaves the line pointer in place exactly when no line that it reads, which are
      those that only loaded lines precede, starts with white space. */
  lemma {:induction false} PointerIff(table: seq<Field>, regs: Registers, lines: seq<string>)
    requires Mapped(table, regs)
    ensures PointerMoved(table, regs, lines) == 0 <==>
      forall i: nat :: i < |lines| && LoadLines(table, regs, lines[..i]).1 == None ==> !Starts(lines, i)
    decreases |lines|
  {
    if lines != [] {
      LeadIff(lines[0]);
      assert LoadLines(table, regs, lines[..0]).1 == None;
      assert PointerMoved(table, regs, lines) == 0 ==> !Starts(lines, 0);
      match LoadLine(table, regs, lines[0])
      case Err(_) =>
        forall i: nat | 0 < i < |lines| ensures LoadLines(table, regs, lines[..i]).1 != None {
          assert lines[..i][0] == lines[0];
        }
      case Ok(regs') =>
        PointerIff(table, regs', lines[1..]);
        forall i: nat | i < |lines[1..]|
          ensures LoadLines(table, regs, lines[..i + 1]).1 == LoadLines(table, regs', lines[1..][..i]).1
          ensures Starts(lines, i + 1) <==> Starts(lines[1..], i)
        {
          assert lines[..i + 1][1..] == lines[1..][..i] && lines[..i + 1][0] == lines[0];
        }
        forall i: nat | 0 < i < |lines| ensures Starts(lines, i) <==> Starts(lines[1..], i - 1) {
          assert lines[i] == lines[1..][i - 1];
        }
    }
  }

  lemma LeadIff(line: string)
    ensures Lead(line) == 0 <==> line == "" || !IsSpace(line[0])
  {
  }
}
