/** Which windows the search for a pool looks at, and when. */
module ChunkSearch {
  import opened ChunkPool

  /** The window sum is the number of its chunks that are there. */
  lemma {:induction false} CountIs(chunks: set<nat>, from: nat, n: nat)
    ensures Count(chunks, from, n) == |set i: nat | from <= i < from + n && i in chunks|
  {
    if n > 0 {
      CountIs(chunks, from, n - 1);
      var whole, front :=
        set i: nat | from <= i < from + n && i in chunks, set i: nat | from <= i < from + n - 1 && i in chunks;
      assert whole == front + if from + n - 1 in chunks then {from + n - 1} else {};
    }
  }

  ghost predicate AllCounted(chunks: set<nat>, lo: nat, hi: int, required: nat, b: nat) {
    forall w: nat :: lo <= w < hi ==> Count(chunks, w, required) <= b
  }

  ghost predicate SomeCounts(chunks: set<nat>, lo: nat, hi: int, required: nat, b: nat) {
    exists w: nat :: lo <= w < hi && Count(chunks, w, required) == b
  }

  /** A scan that finds nothing reports the larger of the best count so far and the counts of
      all windows it has looked at, none of which leaves the table. */
  lemma {:induction false} BestIsMaximum(chunks: set<nat>, lo: nat, hi: int, required: nat, best: nat)
    requires Scan(chunks, lo, hi, required, best).Best?
    ensures var b := Scan(chunks, lo, hi, required, best).count;
      && best <= b && (b == best || SomeCounts(chunks, lo, hi, required, b))
      && AllCounted(chunks, lo, hi, required, b) && (lo < hi ==> hi - 1 + required <= MAX_CHUNKS)
    decreases hi - lo
  {
    if lo < hi {
      var sum := Count(chunks, lo, required);
      var next := if sum > best then sum else best;
      assert Scan(chunks, lo, hi, required, best) == Scan(chunks, lo + 1, hi, required, next);
      BestIsMaximum(chunks, lo + 1, hi, required, next);
      var b := Scan(chunks, lo, hi, required, best).count;
      assert b == sum ==> SomeCounts(chunks, lo, hi, required, b);
    }
  }

  /** The upper end of the window starts that are looked at around chunk `index`. */
  function Above(index: nat, required: nat, below4G: bool, limit32: nat): int {
    var m: int := if index + required - 1 < 262144 then index + required - 1 else 262144;
    if below4G && limit32 < m then limit32 else m
  }

  ghost predicate LooksAt(w: nat, index: nat, required: nat, below4G: bool, limit32: nat) {
    w + required > index && w < Above(index, required, below4G, limit32)
  }

  /** `w` is the lowest complete window that is looked at. */
  ghost predicate Lowest(now: set<nat>, w: nat, index: nat, required: nat, below4G: bool, limit32: nat) {
    && LooksAt(w, index, required, below4G, limit32) && Complete(now, w, required)
    && forall v: nat :: v < w && LooksAt(v, index, required, below4G, limit32) ==> !Complete(now, v, required)
  }

  ghost predicate NoneComplete(now: set<nat>, index: nat, required: nat, below4G: bool, limit32: nat) {
    forall w: nat :: LooksAt(w, index, required, below4G, limit32) ==> !Complete(now, w, required)
  }

  ghost predicate SomeLeaves(index: nat, required: nat, below4G: bool, limit32: nat) {
    exists w: nat :: LooksAt(w, index, required, below4G, limit32) && w + required > 262144
  }

  /** What a chunk of the table leads to when scans are not being skipped.  The windows looked at
      are those from the first that holds the chunk up to `Above`.  The lowest complete one is
      found; without one, the search leaves the table if one of them does, and otherwise it goes
      on. */
  lemma ScanTurn(index: nat, required: nat, below4G: bool, limit32: nat, chunks: set<nat>, best: nat)
    requires required >= 1 && index < 262144 && best < required
    ensures var (turn, now) := (TurnOf(Chunk(index), required, below4G, limit32, chunks, 0, best), chunks + {index});
      && (forall w: nat :: turn == Stop(Found(w)) <==> Lowest(now, w, index, required, below4G, limit32))
      && (turn == Stop(OutOfBounds) <==>
            NoneComplete(now, index, required, below4G, limit32) && SomeLeaves(index, required, below4G, limit32))
      && (turn.Go? <==>
            NoneComplete(now, index, required, below4G, limit32) && !SomeLeaves(index, required, below4G, limit32))
  {
    var now, lo, hi := chunks + {index}, ScanStart(index, required), ScanEnd(index, required, below4G, limit32);
    assert hi == Above(index, required, below4G, limit32);
    forall w: nat ensures LooksAt(w, index, required, below4G, limit32) <==> lo <= w < hi {}
    var sight := Scan(now, lo, hi, required, best);
    ScanSound(now, lo, hi, required, best);
    ScanOverrunsIff(now, lo, hi, required, best);
    forall w: nat | lo <= w < hi && Complete(now, w, required) ensures sight.Full? && sight.start <= w {
      ScanFinds(now, lo, hi, required, best, w);
    }
    if lo < hi {
      assert LooksAt(hi - 1, index, required, below4G, limit32);
    }
    assert SomeLeaves(index, required, below4G, limit32) <==> lo < hi && hi + required > MAX_CHUNKS + 1;
    if sight.Full? {
      assert LooksAt(sight.start, index, required, below4G, limit32) && Complete(now, sight.start, required);
    }
  }

  /** After a scan with best count `b` at least `required - b` more chunks are needed to complete
      a window; all of these but the last go without a scan. */
  function Unscanned(required: nat, b: nat): nat { if b + 1 < required then required - b - 1 else 0 }

  /** After a scan, the next `Unscanned` chunks are only taken; the one behind them is scanned
      again, with the best count of that scan. */
  lemma NextScan(answers: seq<Answer>, required: nat, below4G: bool, limit32: nat,
                 pcnt: nat, chunks: set<nat>, best: nat, b: nat)
    requires pcnt < |answers| && pcnt < MAX_CHUNKS && best < required
    requires answers[pcnt].Chunk? && answers[pcnt].index < MAX_CHUNKS
    requires Scan(chunks + {answers[pcnt].index}, ScanStart(answers[pcnt].index, required),
                  ScanEnd(answers[pcnt].index, required, below4G, limit32), required, best) == Best(b)
    requires var next := pcnt + 1 + Unscanned(required, b);
      && next <= |answers| && next <= MAX_CHUNKS
      && forall i :: pcnt < i < next ==> answers[i].Chunk? && answers[i].index < MAX_CHUNKS
    ensures var next := pcnt + 1 + Unscanned(required, b);
      Search(answers, required, below4G, limit32, pcnt, chunks, 0, best)
      == Search(answers, required, below4G, limit32, next, chunks + Obtained(answers[pcnt..next]), 0, b)
  {
    var index, k := answers[pcnt].index, Unscanned(required, b);
    SkipOver(answers, required, below4G, limit32, pcnt + 1, chunks + {index}, k, b);
    ObtainedCons(answers[pcnt..pcnt + 1 + k]);
    assert answers[pcnt..pcnt + 1 + k][1..] == answers[pcnt + 1..pcnt + 1 + k];
    assert chunks + {index} + Obtained(answers[pcnt + 1..pcnt + 1 + k])
        == chunks + ({index} + Obtained(answers[pcnt + 1..pcnt + 1 + k]));
  }

  lemma {:induction false} ObtainedCons(answers: seq<Answer>)
    requires answers != [] && answers[0].Chunk?
    ensures Obtained(answers) == {answers[0].index} + Obtained(answers[1..])
  {
    forall x ensures x in Obtained(answers) <==> x == answers[0].index || x in Obtained(answers[1..]) {
      ObtainedExact(answers, x);
      ObtainedExact(answers[1..], x);
      assert answers == [answers[0]] + answers[1..];
    }
  }

  lemma {:induction false} SkipOver(answers: seq<Answer>, required: nat, below4G: bool, limit32: nat,
                                    pcnt: nat, chunks: set<nat>, skip: nat, best: nat)
    requires pcnt + skip <= |answers| && pcnt + skip <= MAX_CHUNKS
    requires forall i :: pcnt <= i < pcnt + skip ==> answers[i].Chunk? && answers[i].index < MAX_CHUNKS
    ensures Search(answers, required, below4G, limit32, pcnt, chunks, skip, best)
            == Search(answers, required, below4G, limit32, pcnt + skip, chunks + Obtained(answers[pcnt..pcnt + skip]),
                      0, best)
    decreases skip
  {
    if skip == 0 {
      assert chunks + Obtained(answers[pcnt..pcnt]) == chunks;
    } else {
      var index := answers[pcnt].index;
      SkipOver(answers, required, below4G, limit32, pcnt + 1, chunks + {index}, skip - 1, best);
      ObtainedCons(answers[pcnt..pcnt + skip]);
      assert answers[pcnt..pcnt + skip][1..] == answers[pcnt + 1..pcnt + skip];
      assert chunks + {index} + Obtained(answers[pcnt + 1..pcnt + skip])
          == chunks + Obtained(answers[pcnt..pcnt + skip]);
    }
  }
}
