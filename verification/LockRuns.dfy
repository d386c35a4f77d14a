/** Whole runs of the lock manager: any number of files opening, attaching with lock
    requests, releasing and closing. */
module LockRuns {
  import opened LockSpec

  datatype World = World(locks: Locks, files: map<nat, FileData>)

  datatype Call =
    | Open(f: nat)
    | Attach(f: nat, pid: nat, slot: nat, present: bool, mask: Bits)
    | Release(pid: nat, slot: nat, tag: nat)
    | Close(f: nat)
    | Clear

  ghost predicate Callable(w: World, c: Call) {
    Shaped(w.locks) &&
    match c
    case Open(f) => f !in w.files
    case Attach(f, pid, _, _, mask) => f in w.files && pid > 0 && IsWord(mask)
    case Release(pid, slot, _) => pid > 0 && slot < MAXCARDS
    case Close(f) => f in w.files && (w.files[f].slot == NO_SLOT || w.files[f].slot < MAXCARDS)
    case Clear => true
  }

  ghost function Step(w: World, c: Call): World
    requires Callable(w, c)
  {
    match c
    case Open(f) => w.(files := w.files[f := FileData(NO_SLOT, 0)])
    case Attach(f, pid, slot, present, mask) =>
      var (s, file, _) := SetCard(w.locks, w.files[f], pid, slot, present, mask);
      World(s, w.files[f := file])
    case Release(pid, slot, tag) => w.(locks := ReleaseLock(w.locks, pid, slot, tag))
    case Close(f) => World(CloseFile(w.locks, w.files[f]), w.files - {f})
    case Clear => w.(locks := ClearLocks())
  }

  /** What the call means for the live acquisitions: attaching creates one, RELEASELOCK ends
      the one named if it is the caller's, closing a file ends all of that file, and `clearlock`
      ends all there are. */
  ghost function Meaning(w: World, live: Ledger, c: Call): Ledger
    requires Callable(w, c)
  {
    match c
    case Open(_) => live
    case Attach(f, pid, slot, present, mask) =>
      if SetCard(w.locks, w.files[f], pid, slot, present, mask).2.Granted? && mask != {}
      then live[w.locks.counter := Acquisition(f, pid, slot, mask)] else live
    case Release(pid, slot, tag) =>
      if tag in live && live[tag].pid == pid && live[tag].slot == slot then live - {tag} else live
    case Close(f) => live - OwnedBy(live, f)
    case Clear => map[]
  }

  /** An attach that keeps every file's tag its own: if it is granted, it asks for bits on a
      file that holds none; if it is refused for a conflict, the file stays on its card, or it
      holds none and its tag is not in use on the new card. */
  ghost predicate AttachSafe(w: World, live: Ledger, f: nat, pid: nat, slot: nat, present: bool, mask: Bits)
    requires Shaped(w.locks) && f in w.files
  {
    match SetCard(w.locks, w.files[f], pid, slot, present, mask).2
    case Invalid => true
    case Granted => mask != {} && OwnedBy(live, f) == {}
    case Conflict(_) => slot == w.files[f].slot || (OwnedBy(live, f) == {} && !TagInUse(live, slot, w.files[f].tag))
  }

  /** No file is attached to a card. */
  ghost predicate NoneAttached(w: World) {
    forall f :: f in w.files ==> w.files[f].slot == NO_SLOT
  }

  /** Attaches are safe, `clearlock` comes when no file is attached, and the tag counter does not
      wrap. */
  ghost predicate Disciplined(w: World, live: Ledger, c: Call)
    requires Callable(w, c)
  {
    && (c.Attach? ==> AttachSafe(w, live, c.f, c.pid, c.slot, c.present, c.mask) && w.locks.counter < TAG_LIMIT - 1)
    && (c.Clear? ==> NoneAttached(w))
  }

  /** A file's acquisition is the one under its tag on its card, and there its tag is nobody
      else's. */
  ghost predicate FileSound(live: Ledger, f: nat, file: FileData, counter: nat) {
    && (if file.slot == NO_SLOT then file.tag == 0 else file.slot < MAXCARDS && file.tag < counter)
    && TagIsOwn(live, f, file)
  }

  ghost predicate Sound(w: World, live: Ledger) {
    && Agrees(w.locks, live)
    && (forall f :: f in w.files ==> FileSound(live, f, w.files[f], w.locks.counter))
    && (forall t :: t in live ==> live[t].owner in w.files)
  }

  lemma StepSound(w: World, live: Ledger, c: Call)
    requires Sound(w, live) && Callable(w, c) && Disciplined(w, live, c)
    ensures Sound(Step(w, c), Meaning(w, live, c))
  {
    var w', live' := Step(w, c), Meaning(w, live, c);
    match c
    case Open(f) => OpenSound(w, live, f);
    case Attach(f, pid, slot, present, mask) => AttachSound(w, live, f, pid, slot, present, mask);
    case Release(pid, slot, tag) =>
      ReleaseAgrees(w.locks, live, pid, slot, tag);
      forall f | f in w'.files ensures FileSound(live', f, w'.files[f], w'.locks.counter) {
        assert FileSound(live, f, w.files[f], w.locks.counter);
      }
    case Close(f) =>
      assert FileSound(live, f, w.files[f], w.locks.counter);
      CloseAgrees(w.locks, live, f, w.files[f]);
      forall g | g in w'.files ensures FileSound(live', g, w'.files[g], w'.locks.counter) {
        assert FileSound(live, g, w.files[g], w.locks.counter);
      }
    case Clear => ClearSoundIff(w, live);
  }

  /** `clearlock` keeps the bookkeeping sound, so that later closes are exact, if and only if no
      file is attached: an attached file keeps a tag that is issued again. */
  lemma ClearSoundIff(w: World, live: Ledger)
    requires Sound(w, live)
    ensures Sound(Step(w, Clear), map[]) <==> NoneAttached(w)
  {
    var w' := Step(w, Clear);
    assert Agrees(w'.locks, map[]);
    forall f | f in w.files
      ensures FileSound(map[], f, w'.files[f], w'.locks.counter) <==> w.files[f].slot == NO_SLOT
    {
      assert FileSound(live, f, w.files[f], w.locks.counter);
    }
  }

  lemma OpenSound(w: World, live: Ledger, f: nat)
    requires Sound(w, live) && f !in w.files
    ensures Sound(Step(w, Open(f)), live)
  {
    var w' := Step(w, Open(f));
    forall t | t in live ensures live[t].slot != NO_SLOT && live[t].owner != f {
      assert EntryAgrees(w.locks, live, t);
    }
    forall g | g in w'.files ensures FileSound(live, g, w'.files[g], w'.locks.counter) {
      assert g != f ==> FileSound(live, g, w.files[g], w.locks.counter);
    }
  }

  /** A refused attach shows that some tag has been issued. */
  lemma ConflictShowsTag(s: Locks, live: Ledger, slot: nat, mask: Bits)
    requires Agrees(s, live) && slot < MAXCARDS && IsWord(mask) && mask * s.cards[slot].locks != {}
    ensures s.counter > 0
  {
    var b :| b in mask * s.cards[slot].locks;
    assert BitAgrees(s, live, slot, b);
    assert EntryAgrees(s, live, s.cards[slot].tags[b]);
  }

  /** Attaching keeps every file's tag its own. */
  lemma AttachFile(w: World, live: Ledger, f: nat, pid: nat, slot: nat, present: bool, mask: Bits, g: nat)
    requires var c := Attach(f, pid, slot, present, mask);
      Sound(w, live) && Callable(w, c) && Disciplined(w, live, c) && g in w.files
    ensures var c := Attach(f, pid, slot, present, mask);
      var w' := Step(w, c);
      g in w'.files && FileSound(Meaning(w, live, c), g, w'.files[g], w'.locks.counter)
  {
    assert FileSound(live, g, w.files[g], w.locks.counter);
    forall t | t in live ensures t < w.locks.counter && (live[t].owner == f ==> t in OwnedBy(live, f)) {
      assert EntryAgrees(w.locks, live, t);
    }
    if SetCard(w.locks, w.files[f], pid, slot, present, mask).2.Conflict? {
      ConflictShowsTag(w.locks, live, slot, mask);
    }
  }

  lemma AttachSound(w: World, live: Ledger, f: nat, pid: nat, slot: nat, present: bool, mask: Bits)
    requires var c := Attach(f, pid, slot, present, mask);
      Sound(w, live) && Callable(w, c) && Disciplined(w, live, c)
    ensures var c := Attach(f, pid, slot, present, mask);
      Sound(Step(w, c), Meaning(w, live, c))
  {
    var c := Attach(f, pid, slot, present, mask);
    var w', live' := Step(w, c), Meaning(w, live, c);
    SetCardAgrees(w.locks, live, f, w.files[f], pid, slot, present, mask);
    forall g | g in w'.files ensures FileSound(live', g, w'.files[g], w'.locks.counter) {
      AttachFile(w, live, f, pid, slot, present, mask, g);
    }
  }

  lemma AttachUnsound(w: World, live: Ledger, f: nat, pid: nat, slot: nat, present: bool, mask: Bits)
    requires var c := Attach(f, pid, slot, present, mask);
      Sound(w, live) && Callable(w, c) && w.locks.counter < TAG_LIMIT - 1
    requires !AttachSafe(w, live, f, pid, slot, present, mask)
    ensures var c := Attach(f, pid, slot, present, mask);
      !Sound(Step(w, c), Meaning(w, live, c))
  {
    var c := Attach(f, pid, slot, present, mask);
    var w', live' := Step(w, c), Meaning(w, live, c);
    assert FileSound(live, f, w.files[f], w.locks.counter);
    if OwnedBy(live, f) != {} {
      var t :| t in OwnedBy(live, f);
      assert EntryAgrees(w.locks, live, t);
      assert t in live' && live'[t].owner == f;
    }
    assert !FileSound(live', f, w'.files[f], w'.locks.counter);
  }

  /** A SETCARD keeps the bookkeeping sound, so that every later close is exact, if and only if
      it is safe; whether it is, its caller knows from what it holds and from the answer. */
  lemma AttachSoundIff(w: World, live: Ledger, f: nat, pid: nat, slot: nat, present: bool, mask: Bits)
    requires var c := Attach(f, pid, slot, present, mask);
      Sound(w, live) && Callable(w, c) && w.locks.counter < TAG_LIMIT - 1
    ensures var c := Attach(f, pid, slot, present, mask);
      Sound(Step(w, c), Meaning(w, live, c)) <==> AttachSafe(w, live, f, pid, slot, present, mask)
  {
    if AttachSafe(w, live, f, pid, slot, present, mask) {
      AttachSound(w, live, f, pid, slot, present, mask);
    } else {
      AttachUnsound(w, live, f, pid, slot, present, mask);
    }
  }

  /** In a sound state every close is exact. */
  lemma SoundCloseExact(w: World, live: Ledger, f: nat)
    requires Sound(w, live) && f in w.files
    ensures Callable(w, Close(f)) && Sound(Step(w, Close(f)), live - OwnedBy(live, f))
  {
    assert FileSound(live, f, w.files[f], w.locks.counter);
    StepSound(w, live, Close(f));
  }

  /** A run together with the acquisitions it leaves live. */
  ghost predicate Reaches(w: World, live: Ledger, calls: seq<Call>, w': World, live': Ledger)
    decreases |calls|
  {
    if calls == [] then w' == w && live' == live
    else Callable(w, calls[0]) && Disciplined(w, live, calls[0])
         && Reaches(Step(w, calls[0]), Meaning(w, live, calls[0]), calls[1..], w', live')
  }

  lemma {:induction false} RunSound(w: World, live: Ledger, calls: seq<Call>, w': World, live': Ledger)
    requires Sound(w, live) && Reaches(w, live, calls, w', live')
    ensures Sound(w', live')
    decreases |calls|
  {
    if calls != [] {
      StepSound(w, live, calls[0]);
      RunSound(Step(w, calls[0]), Meaning(w, live, calls[0]), calls[1..], w', live');
    }
  }

  lemma LoadedSound()
    ensures Sound(World(Loaded(), map[]), map[])
  {
  }

  /** Over every disciplined run since loading: live masks on a card are pairwise disjoint,
      the lock word is their union, and a bit is set exactly when its pid entry is. */
  lemma RunExclusive(calls: seq<Call>, w: World, live: Ledger, c: nat, b: nat)
    requires Reaches(World(Loaded(), map[]), map[], calls, w, live) && c < MAXCARDS && b < MAXLOCKBITS
    ensures Shaped(w.locks)
    ensures forall t, u :: t in live && u in live && t != u && live[t].slot == live[u].slot ==>
            live[t].mask !! live[u].mask
    ensures b in w.locks.cards[c].locks <==> exists t :: t in live && live[t].slot == c && b in live[t].mask
    ensures b in w.locks.cards[c].locks <==> w.locks.cards[c].pids[b] != 0
  {
    LoadedSound();
    RunSound(World(Loaded(), map[]), map[], calls, w, live);
    forall t, u | t in live && u in live && t != u && live[t].slot == live[u].slot
      ensures live[t].mask !! live[u].mask
    {
      MasksDisjoint(w.locks, live, t, u);
    }
    LocksAreUnion(w.locks, live, c, b);
  }

  /** After a close in such a run no other file has lost or gained a bit. */
  lemma CloseTouchesOnlyOwn(calls: seq<Call>, w: World, live: Ledger, f: nat, t: nat)
    requires Reaches(World(Loaded(), map[]), map[], calls, w, live)
    requires Callable(w, Close(f)) && t in live && live[t].owner != f
    ensures t in Meaning(w, live, Close(f)) && Meaning(w, live, Close(f))[t] == live[t]
    ensures Agrees(Step(w, Close(f)).locks, Meaning(w, live, Close(f)))
  {
    LoadedSound();
    RunSound(World(Loaded(), map[]), map[], calls, w, live);
    StepSound(w, live, Close(f));
  }
}
