/** Assembling the pool of one zone from scattered chunks (gfpbpa_init): chunks are taken
    from the kernel until a window of them is complete, and the others are given back. */
module ChunkPool {
  import opened Arithmetic
  import opened PoolSpec
  import opened Ranges

  const MAX_CHUNKS := 256 * 1024

  /** What one call to the page allocator yields: nothing, a chunk that is not aligned to its
      size, or the chunk with this number. */
  datatype Answer = NoMemory | Misaligned | Chunk(index: nat)

  datatype Outcome =
    | Found(start: nat)      // the window of chunks from `start` is kept
    | Exhausted              // no window was recognised before the allocator or the limit stopped
    | Unaligned              // given up at a misaligned chunk
    | BeyondLimit            // given up at a chunk above the supported memory
    | OutOfBounds            // a scan reads past the end of the table; nothing is known from there on

  /** The chunks among some answers. */
  ghost function Obtained(answers: seq<Answer>): set<nat> {
    if answers == [] then {}
    else
      var last := answers[|answers| - 1];
      Obtained(answers[..|answers| - 1]) + if last.Chunk? then {last.index} else {}
  }

  /** The exclusive upper bound of the window starts that are examined around a chunk. */
  function ScanEnd(index: nat, required: nat, below4G: bool, limit32: nat): int {
    var m: int := index + required - 1;
    var capped := if m > MAX_CHUNKS then MAX_CHUNKS else m;
    if below4G && capped > limit32 then limit32 else capped
  }

  /** The windows examined around a chunk lie within the table. */
  predicate ScanInBounds(a: Answer, required: nat, below4G: bool, limit32: nat) {
    a.Chunk? && a.index < MAX_CHUNKS ==> ScanEnd(a.index, required, below4G, limit32) + required <= MAX_CHUNKS + 1
  }

  // ---------------------------------------------------------------- the search, on values

  lemma ObtainedStep(answers: seq<Answer>, k: nat)
    requires k < |answers|
    ensures Obtained(answers[..k + 1]) == Obtained(answers[..k]) + if answers[k].Chunk? then {answers[k].index} else {}
  {
    assert answers[..k + 1][..k] == answers[..k];
  }

  /** The chunks obtained are those among the answers. */
  lemma {:induction false} ObtainedExact(answers: seq<Answer>, index: nat)
    ensures index in Obtained(answers) <==> Chunk(index) in answers
  {
    if answers != [] {
      var n := |answers| - 1;
      ObtainedExact(answers[..n], index);
      assert answers == answers[..n] + [answers[n]];
    }
  }

  /** How many chunks of a window are there. */
  function Count(chunks: set<nat>, from: nat, n: nat): (c: nat)
    ensures c <= n
  {
    if n == 0 then 0 else Count(chunks, from, n - 1) + if from + n - 1 in chunks then 1 else 0
  }

  /** What a scan ends with: a complete window, a window outside the table, or the best count. */
  datatype Sight = Full(start: nat) | Overrun | Best(count: nat)

  function Scan(chunks: set<nat>, lo: nat, hi: int, required: nat, best: nat): Sight
    decreases hi - lo
  {
    if lo >= hi then Best(best)
    else if lo + required > MAX_CHUNKS then Overrun
    else
      var sum := Count(chunks, lo, required);
      if sum == required then Full(lo)
      else Scan(chunks, lo + 1, hi, required, if sum > best then sum else best)
  }

  function ScanStart(index: nat, required: nat): nat {
    if index + 1 < required then 0 else index + 1 - required
  }

  /** What one answer leads to: the end of the search, or a next call to the allocator. */
  datatype Turn = Stop(outcome: Outcome) | Go(skip: nat, best: nat)

  /** One answer, `chunks` having been obtained before; `skip` counts the chunks that are not
      followed by a scan, since they cannot yet complete the best window counted so far. */
  function TurnOf(answer: Answer, required: nat, below4G: bool, limit32: nat,
                  chunks: set<nat>, skip: nat, best: nat): Turn {
    match answer
    case NoMemory => Stop(Exhausted)
    case Misaligned => Stop(Unaligned)
    case Chunk(index) =>
      if index >= MAX_CHUNKS then Stop(BeyondLimit)
      else if skip > 0 then Go(skip - 1, best)
      else
        var lo, hi := ScanStart(index, required), ScanEnd(index, required, below4G, limit32);
        match Scan(chunks + {index}, lo, hi, required, best)
        case Full(start) => Stop(Found(start))
        case Overrun => Stop(OutOfBounds)
        case Best(b) => Go(if b + 1 < required then required - b - 1 else 0, b)
  }

  /** The rest of the search.  When the answers run out, there is no more memory. */
  function Search(answers: seq<Answer>, required: nat, below4G: bool, limit32: nat,
                  pcnt: nat, chunks: set<nat>, skip: nat, best: nat): (Outcome, nat)
    decreases MAX_CHUNKS - pcnt
  {
    if pcnt >= MAX_CHUNKS || pcnt >= |answers| then (Exhausted, pcnt)
    else
      match TurnOf(answers[pcnt], required, below4G, limit32, chunks, skip, best)
      case Stop(outcome) => (outcome, pcnt + 1)
      case Go(skip', best') =>
        Search(answers, required, below4G, limit32, pcnt + 1, chunks + {answers[pcnt].index}, skip', best')
  }

  lemma {:induction false} CountFull(chunks: set<nat>, from: nat, n: nat)
    ensures Count(chunks, from, n) == n <==> forall i :: from <= i < from + n ==> i in chunks
  {
    if n > 0 {
      CountFull(chunks, from, n - 1);
    }
  }

  predicate Complete(chunks: set<nat>, w: nat, required: nat) {
    w + required <= MAX_CHUNKS && forall i :: w <= i < w + required ==> i in chunks
  }

  /** A scan whose interval holds a complete window ends with that one or an earlier one. */
  lemma {:induction false} ScanFinds(chunks: set<nat>, lo: nat, hi: int, required: nat, best: nat, w: nat)
    requires lo <= w < hi && Complete(chunks, w, required)
    ensures var sight := Scan(chunks, lo, hi, required, best);
      sight.Full? && lo <= sight.start <= w && Complete(chunks, sight.start, required)
    decreases hi - lo
  {
    CountFull(chunks, lo, required);
    var sum := Count(chunks, lo, required);
    if sum != required {
      ScanFinds(chunks, lo + 1, hi, required, if sum > best then sum else best, w);
    }
  }

  /** A scan leaves the table exactly when its interval reaches that far and holds no complete
      window. */
  lemma {:induction false} ScanOverrunsIff(chunks: set<nat>, lo: nat, hi: int, required: nat, best: nat)
    ensures Scan(chunks, lo, hi, required, best).Overrun?
            <==> lo < hi && hi + required > MAX_CHUNKS + 1
                 && forall w: nat :: lo <= w < hi ==> !Complete(chunks, w, required)
    decreases hi - lo
  {
    if lo < hi {
      if lo + required <= MAX_CHUNKS {
        CountFull(chunks, lo, required);
        var sum := Count(chunks, lo, required);
        if sum == required {
          assert Complete(chunks, lo, required);
        } else {
          ScanOverrunsIff(chunks, lo + 1, hi, required, if sum > best then sum else best);
          assert !Complete(chunks, lo, required);
        }
      }
    }
  }

  /** The last chunk of the table, obtained first, sends the scan for three out of the table. */
  lemma LastChunkOverruns()
    ensures Search([Chunk(MAX_CHUNKS - 1)], 3, false, 0, 0, {}, 0, 0) == (OutOfBounds, 1)
  {
    var last := MAX_CHUNKS - 1;
    var chunks: set<nat> := {} + {last};
    forall w: nat | last - 2 <= w < last + 2 ensures !Complete(chunks, w, 3) {
      assert w !in chunks || w + 1 !in chunks;
    }
    ScanOverrunsIff(chunks, ScanStart(last, 3), ScanEnd(last, 3, false, 0), 3, 0);
    assert TurnOf(Chunk(last), 3, false, 0, {}, 0, 0) == Stop(OutOfBounds);
  }

  /** A complete window that is reported is one; a count that is reported is short of it. */
  lemma {:induction false} ScanSound(chunks: set<nat>, lo: nat, hi: int, required: nat, best: nat)
    requires best < required
    ensures match Scan(chunks, lo, hi, required, best)
            case Full(start) => lo <= start < hi && start + required <= MAX_CHUNKS
                                && forall i :: start <= i < start + required ==> i in chunks
            case Overrun => hi + required > MAX_CHUNKS + 1
            case Best(count) => best <= count < required
    decreases hi - lo
  {
    if lo < hi && lo + required <= MAX_CHUNKS {
      var sum := Count(chunks, lo, required);
      CountFull(chunks, lo, required);
      if sum != required {
        ScanSound(chunks, lo + 1, hi, required, if sum > best then sum else best);
      }
    }
  }

  /** What the search reports: a block is complete, lies in the table and starts below the limit
      if there is one; it has at least two chunks; the other ends are what they say.  All answers
      before the last one taken are chunks of the table. */
  ghost predicate Reported(answers: seq<Answer>, required: nat, below4G: bool, limit32: nat, outcome: Outcome,
                           taken: nat) {
    && taken <= |answers| && taken <= MAX_CHUNKS
    && (forall i :: 0 <= i < taken - 1 ==> answers[i].Chunk? && answers[i].index < MAX_CHUNKS)
    && match outcome
       case Found(start) =>
         && required >= 2 && start + required <= MAX_CHUNKS && (below4G ==> start < limit32)
         && forall i :: start <= i < start + required ==> i in Obtained(answers[..taken])
       case Exhausted =>
         taken == |answers| || taken == MAX_CHUNKS || (taken > 0 && answers[taken - 1].NoMemory?)
       case Unaligned => taken > 0 && answers[taken - 1].Misaligned?
       case BeyondLimit => taken > 0 && answers[taken - 1].Chunk? && answers[taken - 1].index >= MAX_CHUNKS
       case OutOfBounds => taken > 0 && !ScanInBounds(answers[taken - 1], required, below4G, limit32)
  }

  lemma {:induction false} SearchSound(answers: seq<Answer>, required: nat, below4G: bool, limit32: nat,
                                       pcnt: nat, skip: nat, best: nat)
    requires pcnt <= |answers| && pcnt <= MAX_CHUNKS && best < required
    requires forall i :: 0 <= i < pcnt ==> answers[i].Chunk? && answers[i].index < MAX_CHUNKS
    ensures var (outcome, taken) :=
        Search(answers, required, below4G, limit32, pcnt, Obtained(answers[..pcnt]), skip, best);
      Reported(answers, required, below4G, limit32, outcome, taken)
    decreases MAX_CHUNKS - pcnt
  {
    if pcnt < MAX_CHUNKS && pcnt < |answers| {
      ObtainedStep(answers, pcnt);
      var chunks := Obtained(answers[..pcnt]);
      var turn := TurnOf(answers[pcnt], required, below4G, limit32, chunks, skip, best);
      TurnSound(answers[pcnt], required, below4G, limit32, chunks, skip, best);
      if turn.Go? {
        SearchSound(answers, required, below4G, limit32, pcnt + 1, turn.skip, turn.best);
      }
    }
  }

  lemma TurnSound(answer: Answer, required: nat, below4G: bool, limit32: nat, chunks: set<nat>, skip: nat, best: nat)
    requires best < required
    ensures match TurnOf(answer, required, below4G, limit32, chunks, skip, best)
            case Go(_, best') => answer.Chunk? && answer.index < MAX_CHUNKS && best' < required
            case Stop(Found(start)) =>
              && required >= 2 && start + required <= MAX_CHUNKS && (below4G ==> start < limit32) && answer.Chunk?
              && forall i :: start <= i < start + required ==> i in chunks + {answer.index}
            case Stop(Exhausted) => answer.NoMemory?
            case Stop(Unaligned) => answer.Misaligned?
            case Stop(BeyondLimit) => answer.Chunk? && answer.index >= MAX_CHUNKS
            case Stop(OutOfBounds) => !ScanInBounds(answer, required, below4G, limit32)
  {
    if answer.Chunk? {
      ScanSound(chunks + {answer.index}, ScanStart(answer.index, required),
                ScanEnd(answer.index, required, below4G, limit32), required, best);
    }
  }

  /** When a chunk completes a window of at least two chunks, which starts below the limit if
      there is one, the search finds a block there and then if and only if no scan is being
      skipped. */
  lemma CompletionSeenIff(answers: seq<Answer>, required: nat, below4G: bool, limit32: nat, pcnt: nat, chunks: set<nat>,
                          skip: nat, best: nat, w: nat)
    requires pcnt < |answers| && pcnt < MAX_CHUNKS && answers[pcnt].Chunk? && answers[pcnt].index < MAX_CHUNKS
    requires required >= 2 && w <= answers[pcnt].index < w + required && (below4G ==> w < limit32)
    requires Complete(chunks + {answers[pcnt].index}, w, required)
    ensures var (outcome, taken) := Search(answers, required, below4G, limit32, pcnt, chunks, skip, best);
      (outcome.Found? && taken == pcnt + 1) <==> skip == 0
  {
    var index := answers[pcnt].index;
    if skip == 0 {
      var lo, hi := ScanStart(index, required), ScanEnd(index, required, below4G, limit32);
      ScanFinds(chunks + {index}, lo, hi, required, best, w);
    } else {
      SearchGoesOn(answers, required, below4G, limit32, pcnt + 1, chunks + {index}, skip - 1, best);
    }
  }

  /** A search that finds something has taken one more answer. */
  lemma SearchGoesOn(answers: seq<Answer>, required: nat, below4G: bool, limit32: nat,
                     pcnt: nat, chunks: set<nat>, skip: nat, best: nat)
    ensures var (outcome, taken) := Search(answers, required, below4G, limit32, pcnt, chunks, skip, best);
      taken >= pcnt && (outcome.Found? || outcome.OutOfBounds? ==> taken > pcnt)
    decreases MAX_CHUNKS - pcnt
  {
    if pcnt < MAX_CHUNKS && pcnt < |answers| {
      var turn := TurnOf(answers[pcnt], required, below4G, limit32, chunks, skip, best);
      if turn.Go? {
        var chunks' := chunks + {answers[pcnt].index};
        SearchGoesOn(answers, required, below4G, limit32, pcnt + 1, chunks', turn.skip, turn.best);
      }
    }
  }

  lemma {:induction false} CountLonely(chunks: set<nat>, from: nat, n: nat, x: nat)
    requires forall i :: from <= i < from + n && i in chunks ==> i == x
    ensures Count(chunks, from, n) == if from <= x < from + n && x in chunks then 1 else 0
  {
    if n > 0 {
      CountLonely(chunks, from, n - 1, x);
    }
  }

  /** Around a chunk without neighbours a scan for three counts one. */
  lemma LonelyScan(chunks: set<nat>, x: nat, best: nat)
    requires x in chunks && 2 <= x < 100 && best <= 1
    requires forall i :: x - 2 <= i < x + 5 && i in chunks ==> i == x
    ensures Scan(chunks, ScanStart(x, 3), ScanEnd(x, 3, false, 0), 3, best) == Best(1)
  {
    CountLonely(chunks, x - 2, 3, x);
    CountLonely(chunks, x - 1, 3, x);
    CountLonely(chunks, x, 3, x);
    CountLonely(chunks, x + 1, 3, x);
    assert Scan(chunks, x + 2, x + 2, 3, 1) == Best(1);
    assert Scan(chunks, x + 1, x + 2, 3, 1) == Best(1);
    assert Scan(chunks, x, x + 2, 3, 1) == Best(1);
    assert Scan(chunks, x - 1, x + 2, 3, 1) == Best(1);
  }

  /** The search is not complete: all three chunks of the window at 0 are obtained, each while
      scans are skipped, and the kernel runs out of memory without the window being seen. */
  lemma WindowMissed()
    ensures var answers := [Chunk(10), Chunk(0), Chunk(20), Chunk(1), Chunk(30), Chunk(2)];
      && Search(answers, 3, false, 0, 0, {}, 0, 0) == (Exhausted, 6)
      && 0 in Obtained(answers) && 1 in Obtained(answers) && 2 in Obtained(answers)
  {
    var answers := [Chunk(10), Chunk(0), Chunk(20), Chunk(1), Chunk(30), Chunk(2)];
    assert answers[1] in answers && answers[3] in answers && answers[5] in answers;
    ObtainedExact(answers, 0);
    ObtainedExact(answers, 1);
    ObtainedExact(answers, 2);
    var s1: set<nat> := {} + {10};
    var s2 := s1 + {0};
    var s3 := s2 + {20};
    var s4 := s3 + {1};
    var s5 := s4 + {30};
    var s6 := s5 + {2};
    LonelyScan(s1, 10, 0);
    LonelyScan(s3, 20, 1);
    LonelyScan(s5, 30, 1);
    assert Search(answers, 3, false, 0, 6, s6, 0, 1) == (Exhausted, 6);
    assert Search(answers, 3, false, 0, 5, s5, 1, 1) == (Exhausted, 6);
    assert Search(answers, 3, false, 0, 4, s4, 0, 1) == (Exhausted, 6);
    assert Search(answers, 3, false, 0, 3, s3, 1, 1) == (Exhausted, 6);
    assert Search(answers, 3, false, 0, 2, s2, 0, 1) == (Exhausted, 6);
    assert Search(answers, 3, false, 0, 1, s1, 1, 1) == (Exhausted, 6);
  }

  // ---------------------------------------------------------------- the loops

  ghost predicate Marks(pool: seq<nat>, chunks: set<nat>) {
    && |pool| == MAX_CHUNKS
    && (forall i :: 0 <= i < MAX_CHUNKS ==> pool[i] == if i in chunks then 1 else 0)
    && forall i :: i in chunks ==> i < MAX_CHUNKS
  }

  ghost predicate Ascending(s: seq<nat>) {
    forall i, j :: 0 <= i < j < |s| ==> s[i] < s[j]
  }

  method SumWindow(pool: array<nat>, from: nat, n: nat, ghost chunks: set<nat>) returns (sum: nat)
    requires Marks(pool[..], chunks) && from + n <= pool.Length
    ensures sum == Count(chunks, from, n)
  {
    sum := 0;
    for loop2 := 0 to n
      invariant sum == Count(chunks, from, loop2)
    {
      assert pool[..][from + loop2] == pool[from + loop2];
      sum := sum + pool[from + loop2];
    }
  }

  /** Look at the windows that start in `[lo, hi)`; stop at the first complete one, or at one
      that leaves the table. */
  method ScanWindows(pool: array<nat>, lo: nat, hi: int, required: nat, best: nat, ghost chunks: set<nat>)
    returns (sight: Sight)
    requires best < required && Marks(pool[..], chunks)
    ensures sight == Scan(chunks, lo, hi, required, best)
  {
    var best' := best;
    var w := lo;
    while w < hi
      invariant lo <= w && best <= best' < required
      invariant Scan(chunks, lo, hi, required, best) == Scan(chunks, w, hi, required, best')
    {
      if w + required > pool.Length {
        return Overrun;
      }
      var sum := SumWindow(pool, w, required, chunks);
      if sum == required {
        return Full(w);
      }
      if sum > best' {
        best' := sum;
      }
      w := w + 1;
    }
    sight := Best(best');
  }

  /** Give back every marked chunk outside `[keep, keep + n)`, in ascending order. */
  method ReturnOthers(pool: array<nat>, keep: nat, n: nat) returns (freed: seq<nat>)
    ensures Ascending(freed)
    ensures forall i :: i in freed <==> 0 <= i < pool.Length && pool[i] != 0 && !(keep <= i < keep + n)
  {
    freed := [];
    for loop := 0 to pool.Length
      invariant Ascending(freed) && forall j :: 0 <= j < |freed| ==> freed[j] < loop
      invariant forall i :: i in freed <==> 0 <= i < loop && pool[i] != 0 && !(keep <= i < keep + n)
    {
      if pool[loop] != 0 && (loop < keep || loop >= keep + n) {
        freed := freed + [loop];
      }
    }
  }

  /** One turn of the allocation loop: mark the chunk, and look for a complete window unless
      this is being skipped. */
  method TakeAnswer(pool: array<nat>, answer: Answer, required: nat, below4G: bool, limit32: nat,
                    skip: nat, best: nat, ghost chunks: set<nat>) returns (turn: Turn)
    requires Marks(pool[..], chunks) && best < required
    modifies pool
    ensures turn == TurnOf(answer, required, below4G, limit32, chunks, skip, best)
    ensures turn.Go? ==> turn.best < required && answer.Chunk?
    ensures turn == Stop(BeyondLimit) <==> answer.Chunk? && answer.index >= MAX_CHUNKS
    ensures Marks(pool[..], if answer.Chunk? && answer.index < MAX_CHUNKS then chunks + {answer.index} else chunks)
  {
    TurnSound(answer, required, below4G, limit32, chunks, skip, best);
    if !answer.Chunk? {
      return Stop(if answer.NoMemory? then Exhausted else Unaligned);
    }
    if answer.index >= MAX_CHUNKS {
      return Stop(BeyondLimit);
    }
    pool[answer.index] := 1;
    var skip', best' := skip, best;
    if skip' == 0 {
      var hi := ScanEnd(answer.index, required, below4G, limit32);
      var sight := ScanWindows(pool, ScanStart(answer.index, required), hi, required, best, chunks + {answer.index});
      match sight {
        case Full(start) => return Stop(Found(start));
        case Overrun => return Stop(OutOfBounds);
        case Best(count) => best' := count;
      }
      skip' := required - best';
    }
    if skip' != 0 {
      skip' := skip' - 1;
    }
    turn := Go(skip', best');
  }

  /** The allocation loop: chunk after chunk until a complete window is seen. */
  method Collect(pool: array<nat>, answers: seq<Answer>, required: nat, below4G: bool, limit32: nat)
    returns (outcome: Outcome, ghost taken: nat)
    requires Marks(pool[..], {}) && required >= 1
    modifies pool
    ensures (outcome, taken) == Search(answers, required, below4G, limit32, 0, {}, 0, 0)
    ensures taken <= |answers| && (outcome.BeyondLimit? ==> taken > 0)
    ensures Marks(pool[..], Obtained(answers[..if outcome.BeyondLimit? then taken - 1 else taken]))
  {
    var skip: nat, best: nat, pcnt: nat := 0, 0, 0;
    taken := 0;
    ghost var chunks: set<nat> := {};
    while pcnt < MAX_CHUNKS && pcnt < |answers|
      invariant pcnt <= MAX_CHUNKS && pcnt <= |answers| && taken == pcnt && best < required
      invariant chunks == Obtained(answers[..taken]) && Marks(pool[..], chunks)
      invariant Search(answers, required, below4G, limit32, 0, {}, 0, 0)
                == Search(answers, required, below4G, limit32, pcnt, chunks, skip, best)
    {
      ObtainedStep(answers, pcnt);
      var turn := TakeAnswer(pool, answers[pcnt], required, below4G, limit32, skip, best, chunks);
      taken := pcnt + 1;
      if turn.Stop? {
        return turn.outcome, taken;
      }
      chunks := chunks + {answers[pcnt].index};
      pcnt, skip, best := pcnt + 1, turn.skip, turn.best;
    }
    outcome := Exhausted;
  }

  /** Give back what is not kept: everything outside the window that was found. */
  method Settle(pool: array<nat>, outcome: Outcome, required: nat, ghost chunks: set<nat>)
    returns (kept: seq<nat>, freed: seq<nat>)
    requires Marks(pool[..], chunks) && required >= 1
    requires outcome.Found? ==> forall i :: outcome.start <= i < outcome.start + required ==> i in chunks
    ensures Ascending(freed) && (outcome.Found? <==> kept != [])
    ensures outcome.Found? ==> |kept| == required && forall i :: 0 <= i < required ==> kept[i] == outcome.start + i
    ensures forall i :: i in chunks <==> (i in kept) != (i in freed)
    ensures forall i :: i in kept ==> i !in freed
  {
    var start, n := 0, 0;
    if outcome.Found? {
      start, n := outcome.start, required;
    }
    freed := ReturnOthers(pool, start, n);
    kept := seq(n, i => start + i);
    forall i: nat ensures i in kept <==> start <= i < start + n {
      KeptIndices(kept, start, i);
    }
    forall i: nat ensures i in freed <==> i in chunks && !(start <= i < start + n) {
      assert i < MAX_CHUNKS ==> pool[..][i] == pool[i];
    }
  }

  /** gfpbpa_init for one zone.  Success means that all chunks of the window were obtained;
      then, and when nothing was found, each obtained chunk is either kept or returned exactly
      once.  A pool of a single chunk is never found. */
  method Assemble(answers: seq<Answer>, required: nat, below4G: bool, limit32: nat)
    returns (outcome: Outcome, kept: seq<nat>, freed: seq<nat>, ghost taken: nat)
    requires required >= 1
    ensures (outcome, taken) == Search(answers, required, below4G, limit32, 0, {}, 0, 0)
    ensures Reported(answers, required, below4G, limit32, outcome, taken)
    ensures Ascending(freed) && (outcome.Found? <==> kept != [])
    ensures outcome.Found? ==> |kept| == required && forall i :: 0 <= i < required ==> kept[i] == outcome.start + i
    ensures outcome.Found? || outcome.Exhausted? ==>
      forall i :: i in Obtained(answers[..taken]) <==> (i in kept) != (i in freed)
    ensures forall i :: i in kept ==> i !in freed
    ensures outcome.Unaligned? || outcome.OutOfBounds? ==> freed == []
    ensures outcome.BeyondLimit? ==> taken > 0 && forall i :: i in freed <==> i in Obtained(answers[..taken - 1])
  {
    var pool := new nat[MAX_CHUNKS](_ => 0);
    outcome, taken := Collect(pool, answers, required, below4G, limit32);
    SearchSound(answers, required, below4G, limit32, 0, 0, 0);
    kept, freed := [], [];
    if outcome.Unaligned? || outcome.OutOfBounds? {
      return;
    }
    ghost var n := if outcome.BeyondLimit? then taken - 1 else taken;
    kept, freed := Settle(pool, outcome, required, Obtained(answers[..n]));
  }

  lemma ChunkInRegion(start: nat, i: nat, n: nat, chunk: nat)
    requires i < n
    ensures (start + i) * chunk == start * chunk + i * chunk && i * chunk + chunk <= n * chunk
  {
    assert (i + 1) * chunk == i * chunk + chunk;
    MulMono(i + 1, n, chunk);
  }

  lemma ChunkOf(off: nat, n: nat, chunk: nat) returns (i: nat)
    requires chunk > 0 && off < n * chunk
    ensures i < n && i * chunk <= off < i * chunk + chunk
  {
    i := off / chunk;
    assert i * chunk <= off < i * chunk + chunk;
    MulCancel(i, n, chunk);
  }

  predicate InChunk(index: nat, chunk: nat, a: nat) {
    index * chunk <= a < index * chunk + chunk
  }

  /** The kept chunks form one region: their addresses are consecutive multiples of the chunk
      size, so together they are the pool that is later initialised as a single range. */
  lemma KeptIsOneRegion(kept: seq<nat>, start: nat, chunk: nat, a: nat)
    requires chunk > 0 && forall i :: 0 <= i < |kept| ==> kept[i] == start + i
    ensures start * chunk <= a < start * chunk + |kept| * chunk
            <==> exists i :: 0 <= i < |kept| && InChunk(kept[i], chunk, a)
  {
    if start * chunk <= a < start * chunk + |kept| * chunk {
      var i := ChunkOf(a - start * chunk, |kept|, chunk);
      ChunkInRegion(start, i, |kept|, chunk);
      assert InChunk(kept[i], chunk, a);
    }
    forall i | 0 <= i < |kept| && InChunk(kept[i], chunk, a)
      ensures start * chunk <= a < start * chunk + |kept| * chunk
    {
      ChunkInRegion(start, i, |kept|, chunk);
    }
  }

  /** The pool that is initialised over the kept chunks covers each of their addresses once and
      nothing else. */
  lemma KeptIsThePool(kept: seq<nat>, start: nat, chunk: nat, a: nat)
    requires chunk > 0 && kept != [] && forall i :: 0 <= i < |kept| ==> kept[i] == start + i
    ensures Cover(Starting(start * chunk, start * chunk + |kept| * chunk).free, a)
            == if exists i :: 0 <= i < |kept| && InChunk(kept[i], chunk, a) then 1 else 0
  {
    KeptIsOneRegion(kept, start, chunk, a);
    MulMono(1, |kept|, chunk);
    CoverOne(Range(start * chunk, |kept| * chunk), a);
  }

  lemma KeptIndices(kept: seq<nat>, start: nat, c: nat)
    requires forall i :: 0 <= i < |kept| ==> kept[i] == start + i
    ensures c in kept <==> start <= c < start + |kept|
  {
    if start <= c < start + |kept| {
      assert kept[c - start] == c;
    }
  }

  /** Two zones that keep different chunks have disjoint pools. */
  lemma ZonesApart(kept: seq<nat>, start: nat, other: seq<nat>, first: nat, chunk: nat)
    requires chunk > 0 && kept != [] && other != []
    requires forall i :: 0 <= i < |kept| ==> kept[i] == start + i
    requires forall i :: 0 <= i < |other| ==> other[i] == first + i
    requires forall i :: i in kept ==> i !in other
    ensures start * chunk + |kept| * chunk <= first * chunk || first * chunk + |other| * chunk <= start * chunk
  {
    assert kept[0] == start && other[0] == first;
    KeptIndices(kept, start, first);
    KeptIndices(other, first, start);
    if start <= first {
      MulMono(start + |kept|, first, chunk);
      assert (start + |kept|) * chunk == start * chunk + |kept| * chunk;
    } else {
      MulMono(first + |other|, start, chunk);
      assert (first + |other|) * chunk == first * chunk + |other| * chunk;
    }
  }
}
