/** generate_node as it runs: nodes and addresses are built up in loops, and every register
    is appended to one shared list. */
module TreeGenerator {
  import opened Wrappers
  import opened RegisterTree

  ghost function After(nodes: seq<Node>, r: Result<(seq<Node>, nat), string>): Result<(seq<Node>, nat), string> {
    match r
    case Err(e) => Err(e)
    case Ok((more, end)) => Ok((nodes + more, end))
  }

  class Generator {
    const config: Config
    var registers: seq<Node>

    constructor (config: Config)
      ensures this.config == config && registers == []
    {
      this.config := config;
      registers := [];
    }

    /** The node of group `g` at `address`; a missing group ends the program. */
    method GenerateNode(ghost rank: map<string, nat>, g: string, address: nat)
      returns (res: Result<(Node, nat), string>)
      requires Acyclic(config, rank)
      modifies this
      ensures res == GenNode(config, rank, g, address)
      ensures res.Ok? ==> registers == old(registers) + Registers(res.value.0)
      decreases Rank(rank, g), 1, 0
    {
      if g !in config {
        return Err(g);
      }
      var number := config[g].number;
      var at: nat := address + config[g].offset;
      var nodes: seq<Node> := [];
      AfterNothing(GenRepeat(config, rank, g, address, at, number));
      for index := 0 to number
        invariant GenRepeat(config, rank, g, address, address + config[g].offset, number)
                  == After(nodes, GenRepeat(config, rank, g, address, at, number - index))
        invariant registers == old(registers) + RegistersOf(nodes)
      {
        var pass := GeneratePass(rank, g, address, at);
        if pass.Err? {
          return Err(pass.error);
        }
        RegistersAppend(nodes, pass.value.0);
        AfterStep(nodes, pass.value.0, GenRepeat(config, rank, g, address, pass.value.1, number - index - 1));
        nodes, at := nodes + pass.value.0, pass.value.1;
      }
      assert nodes + [] == nodes;
      res := Ok((GroupNode(g, number, address, nodes), at));
    }

    /** One pass over the entries of a group. */
    method GeneratePass(ghost rank: map<string, nat>, g: string, base: nat, address: nat)
      returns (res: Result<(seq<Node>, nat), string>)
      requires Acyclic(config, rank) && g in config
      modifies this
      ensures res == GenEntries(config, rank, g, config[g].entries, base, address)
      ensures res.Ok? ==> registers == old(registers) + RegistersOf(res.value.0)
      decreases Rank(rank, g), 0, 1
    {
      var entries := config[g].entries;
      var nodes: seq<Node>, at: nat := [], address;
      assert entries[0..] == entries;
      ghost var whole := GenEntries(config, rank, g, entries, base, address);
      AfterNothing(whole);
      for k := 0 to |entries|
        invariant Progress(whole, nodes, GenEntries(config, rank, g, entries[k..], base, at), old(registers), registers)
      {
        var e := entries[k];
        PassStep(config, rank, g, k, base, at, whole, nodes, old(registers), registers);
        at := Place(e, base, at);
        var one := GenerateEntry(rank, g, e, at);
        if one.Err? {
          return Err(one.error);
        }
        nodes, at := nodes + [one.value.0], one.value.1;
      }
      assert nodes + [] == nodes;
      res := Ok((nodes, at));
    }

    method GenerateEntry(ghost rank: map<string, nat>, g: string, e: Entry, at: nat)
      returns (res: Result<(Node, nat), string>)
      requires Acyclic(config, rank) && g in config && e in config[g].entries
      modifies this
      ensures res == GenEntry(config, rank, g, e, at)
      ensures res.Ok? ==> registers == old(registers) + Registers(res.value.0)
      decreases Rank(rank, g), 0, 0
    {
      match e
      case Register(name, step, _) =>
        var reg := RegisterNode(name, at, step);
        registers := registers + [reg];
        res := Ok((reg, at + step));
      case Ref(name, _) =>
        if name !in config {
          return Err(name);
        }
        res := GenerateNode(rank, name, at);
    }
  }

  /** Some nodes of a result have been made and their registers appended; `rest` is to come. */
  ghost predicate Progress(whole: Result<(seq<Node>, nat), string>, nodes: seq<Node>,
                           rest: Result<(seq<Node>, nat), string>,
                           before: seq<Node>, now: seq<Node>) {
    whole == After(nodes, rest) && now == before + RegistersOf(nodes)
  }

  lemma AfterNothing(r: Result<(seq<Node>, nat), string>)
    ensures After([], r) == r
  {
    if r.Ok? {
      assert [] + r.value.0 == r.value.0;
    }
  }

  /** One more entry of a pass: it fails as a whole, or has one more node and its registers. */
  lemma PassStep(config: Config, rank: map<string, nat>, g: string, k: nat, base: nat, at: nat,
                 whole: Result<(seq<Node>, nat), string>, nodes: seq<Node>, before: seq<Node>, now: seq<Node>)
    requires Acyclic(config, rank) && g in config && k < |config[g].entries|
    requires Progress(whole, nodes, GenEntries(config, rank, g, config[g].entries[k..], base, at), before, now)
    ensures var entries := config[g].entries;
      var one := GenEntry(config, rank, g, entries[k], Place(entries[k], base, at));
      if one.Err? then whole == Err(one.error)
      else Progress(whole, nodes + [one.value.0], GenEntries(config, rank, g, entries[k + 1..], base, one.value.1),
                    before, now + Registers(one.value.0))
  {
    var entries := config[g].entries;
    assert entries[k..][0] == entries[k] && entries[k..][1..] == entries[k + 1..];
    var one := GenEntry(config, rank, g, entries[k], Place(entries[k], base, at));
    if one.Ok? {
      AfterStep(nodes, [one.value.0], GenEntries(config, rank, g, entries[k + 1..], base, one.value.1));
      RegistersCons(one.value.0, []);
      RegistersAppend(nodes, [one.value.0]);
    }
  }

  lemma AfterStep(nodes: seq<Node>, more: seq<Node>, r: Result<(seq<Node>, nat), string>)
    ensures After(nodes, After(more, r)) == After(nodes + more, r)
  {
    if r.Ok? {
      assert nodes + (more + r.value.0) == nodes + more + r.value.0;
    }
  }
}
