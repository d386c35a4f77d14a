/** In which order the structs of a tree are listed. */
module StructOrder {
  import opened RegisterTree
  import opened SequenceList

  /** The walk over some nodes goes through them one after the other, and into each node before
      what follows it. */
  lemma {:induction false} WalkSplits(nodes: seq<Node>, i: nat)
    requires i < |nodes|
    ensures SequencesOf(nodes)
            == SequencesOf(nodes[..i]) + Sequences(nodes[i]) + SequencesOf(nodes[i + 1..])
  {
    SequencesAppend(nodes[..i], nodes[i..]);
    assert nodes == nodes[..i] + nodes[i..];
    assert nodes[i..][1..] == nodes[i + 1..];
  }

  /** The name at `k` does not occur behind it. */
  ghost predicate LastAt(ss: seq<Node>, k: nat) {
    k < |ss| && forall m :: k < m < |ss| ==> ss[m].name != ss[k].name
  }

  lemma LastInTail(ss: seq<Node>, k: nat, name: string)
    requires LastAt(ss, k) && ss[k].name == name && name in Names(ss[1..])
    ensures k > 0 && LastAt(ss[1..], k - 1)
  {
    var s :| s in ss[1..] && s.name == name;
    var m :| 0 <= m < |ss[1..]| && ss[1..][m] == s;
    assert ss[m + 1] == s;
    forall m | k <= m < |ss[1..]| ensures ss[1..][m].name != name {
      assert ss[1..][m] == ss[m + 1];
    }
  }

  lemma NotBehind(ss: seq<Node>, name: string)
    requires ss != [] && name !in Names(ss[1..])
    ensures forall m :: 0 < m < |ss| ==> ss[m].name != name
  {
    forall m | 0 < m < |ss| ensures ss[m].name != name {
      assert ss[m] == ss[1..][m - 1];
    }
  }

  lemma ChosenName(ss: seq<Node>, i: nat)
    requires i < |Chosen(ss)|
    ensures Chosen(ss)[i].name in Names(ss)
  {
    ChosenNames(ss);
    assert Chosen(ss)[i] in Chosen(ss);
  }

  /** Names are chosen in the reverse order of their last places in the walk. */
  lemma {:induction false} ChosenDescends(ss: seq<Node>, i: nat, j: nat, k: nat, m: nat)
    requires i < j < |Chosen(ss)| && LastAt(ss, k) && LastAt(ss, m)
    requires Chosen(ss)[i].name == ss[k].name && Chosen(ss)[j].name == ss[m].name
    ensures k > m
  {
    var rest := Chosen(ss[1..]);
    ChosenName(ss[1..], i);
    LastInTail(ss, k, rest[i].name);
    if j < |rest| {
      ChosenName(ss[1..], j);
      LastInTail(ss, m, rest[j].name);
      ChosenDescends(ss[1..], i, j, k - 1, m - 1);
    } else {
      NotBehind(ss, ss[0].name);
    }
  }

  /** The struct whose name comes last in the walk is listed first, and so on backwards: of two
      names the one whose last place in the walk is further behind has its struct in front. */
  lemma StructsBackwards(root: Node, j: nat, k: nat, q: nat, r: nat)
    requires var walk := Sequences(root);
      AllSequences(walk) && j < k && LastAt(walk, j) && LastAt(walk, k)
      && Defines(Emitted(root), q, walk[j].name) && Defines(Emitted(root), r, walk[k].name)
    ensures r < q
  {
    var walk := Sequences(root);
    ChosenAll(walk);
    var ss := Chosen(walk);
    var a := LocateStruct(ss, q);
    var b := LocateStruct(ss, r);
    if a < b {
      ChosenDescends(walk, a, b, j, k);
    } else if b < a {
      StructsAscend(ss, b, a);
    }
  }
}
