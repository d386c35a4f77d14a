/** The resource locks of the wupper driver, on values.  A 32-bit lock word is represented
    by the set of its set bits; `lock_pid` and `lock_tags` are one sequence per card. */
module LockSpec {
  const MAXCARDS := 8
  const MAXLOCKBITS := 32
  const NO_SLOT := 99
  const TAG_LIMIT := 0x1_0000_0000

  type Bits = set<nat>

  ghost predicate IsWord(m: Bits) { forall b :: b in m ==> b < MAXLOCKBITS }

  datatype Card = Card(locks: Bits, pids: seq<nat>, tags: seq<nat>)

  /** What the driver keeps for an open file. */
  datatype FileData = FileData(slot: nat, tag: nat)

  datatype Locks = Locks(cards: seq<Card>, counter: nat)

  datatype Answer = Granted | Conflict(held: Bits) | Invalid

  ghost predicate Shaped(s: Locks) {
    |s.cards| == MAXCARDS
    && forall c :: 0 <= c < MAXCARDS ==> |s.cards[c].pids| == MAXLOCKBITS && |s.cards[c].tags| == MAXLOCKBITS
  }

  /** Write `pid` and `tag` into the table entries of the bits in `bits`. */
  function Marked(card: Card, bits: Bits, pid: nat, tag: nat): Card
    requires |card.pids| == |card.tags| == MAXLOCKBITS
  {
    card.(pids := seq(MAXLOCKBITS, b requires 0 <= b < MAXLOCKBITS => if b in bits then pid else card.pids[b]),
          tags := seq(MAXLOCKBITS, b requires 0 <= b < MAXLOCKBITS => if b in bits then tag else card.tags[b]))
  }

  function Acquired(card: Card, mask: Bits, pid: nat, tag: nat): Card
    requires |card.pids| == |card.tags| == MAXLOCKBITS
  {
    Marked(card, mask, pid, tag).(locks := card.locks + mask)
  }

  function Freed(card: Card, bits: Bits): Card
    requires |card.pids| == |card.tags| == MAXLOCKBITS
  {
    Marked(card, bits, 0, 0).(locks := card.locks - bits)
  }

  /** The SETCARD ioctl; `present` tells whether the slot holds a device. */
  function SetCard(s: Locks, file: FileData, pid: nat, slot: nat, present: bool, mask: Bits): (Locks, FileData, Answer)
    requires Shaped(s)
  {
    if slot >= MAXCARDS || !present then (s, file, Invalid)
    else if mask == {} then (s, FileData(slot, s.counter), Granted)
    else if mask * s.cards[slot].locks != {} then (s, file.(slot := slot), Conflict(s.cards[slot].locks))
    else (Locks(s.cards[slot := Acquired(s.cards[slot], mask, pid, s.counter)], (s.counter + 1) % TAG_LIMIT),
          FileData(slot, s.counter), Granted)
  }

  function HeldBy(card: Card, pid: nat, tag: nat): Bits
    requires |card.pids| == |card.tags| == MAXLOCKBITS
  {
    set b | 0 <= b < MAXLOCKBITS && card.pids[b] == pid && card.tags[b] == tag
  }

  function Tagged(card: Card, tag: nat): Bits
    requires |card.tags| == MAXLOCKBITS
  {
    set b | 0 <= b < MAXLOCKBITS && card.tags[b] == tag
  }

  /** The RELEASELOCK ioctl. */
  function ReleaseLock(s: Locks, pid: nat, slot: nat, tag: nat): Locks
    requires Shaped(s) && slot < MAXCARDS
  {
    s.(cards := s.cards[slot := Freed(s.cards[slot], HeldBy(s.cards[slot], pid, tag))])
  }

  /** wupper_Release: a file that never attached to a card releases nothing. */
  function CloseFile(s: Locks, file: FileData): Locks
    requires Shaped(s) && (file.slot == NO_SLOT || file.slot < MAXCARDS)
  {
    if file.slot == NO_SLOT then s
    else s.(cards := s.cards[file.slot := Freed(s.cards[file.slot], Tagged(s.cards[file.slot], file.tag))])
  }

  /** The `clearlock` command: every table is cleared and the tag counter restarts at 0. */
  function ClearLocks(): Locks {
    Locks(seq(MAXCARDS, _ => EmptyCard()), 0)
  }

  function EmptyCard(): (c: Card)
    ensures |c.pids| == MAXLOCKBITS && |c.tags| == MAXLOCKBITS
  {
    Card({}, seq(MAXLOCKBITS, _ => 0), seq(MAXLOCKBITS, _ => 0))
  }

  /** The tables at load time; the first tag is 1. */
  function Loaded(): (s: Locks)
    ensures Shaped(s)
  {
    Locks(seq(MAXCARDS, _ => EmptyCard()), 1)
  }

  function Xor(a: Bits, b: Bits): Bits { (a + b) - (a * b) }

  lemma XorExact(a: Bits, b: Bits, x: nat)
    ensures x in Xor(a, b) <==> (x in a) != (x in b)
  {
  }

  // ---------------------------------------------------------------- acquisitions

  /** One successful locking SETCARD that has not been released yet. */
  datatype Acquisition = Acquisition(owner: nat, pid: nat, slot: nat, mask: Bits)

  /** The live acquisitions by tag. */
  type Ledger = map<nat, Acquisition>

  ghost predicate BitAgrees(s: Locks, live: Ledger, c: nat, b: nat)
    requires Shaped(s) && c < MAXCARDS && b < MAXLOCKBITS
  {
    var card := s.cards[c];
    if b in card.locks then
      var t := card.tags[b];
      t in live && live[t].slot == c && b in live[t].mask && live[t].pid == card.pids[b]
    else
      card.pids[b] == 0 && card.tags[b] == 0
  }

  ghost predicate EntryAgrees(s: Locks, live: Ledger, t: nat)
    requires Shaped(s) && t in live
  {
    var a := live[t];
    && t < s.counter && a.pid > 0 && a.slot < MAXCARDS && a.mask != {} && IsWord(a.mask)
    && forall b :: b in a.mask ==> b in s.cards[a.slot].locks && s.cards[a.slot].tags[b] == t
  }

  /** The driver's tables are exactly what the live acquisitions say: a locked bit carries the
      tag and the pid of the acquisition that holds it, an unlocked bit carries neither. */
  ghost predicate Agrees(s: Locks, live: Ledger) {
    && Shaped(s)
    && (forall c :: 0 <= c < MAXCARDS ==> IsWord(s.cards[c].locks))
    && (forall c, b :: 0 <= c < MAXCARDS && 0 <= b < MAXLOCKBITS ==> BitAgrees(s, live, c, b))
    && (forall t :: t in live ==> EntryAgrees(s, live, t))
  }

  /** Exclusivity: the masks of two live acquisitions on one card share no bit. */
  lemma MasksDisjoint(s: Locks, live: Ledger, t: nat, u: nat)
    requires Agrees(s, live) && t in live && u in live && t != u && live[t].slot == live[u].slot
    ensures live[t].mask !! live[u].mask
  {
    assert EntryAgrees(s, live, t) && EntryAgrees(s, live, u);
  }

  /** The lock word of a card is the union of the live masks on it, and a bit is set exactly
      when its pid entry is. */
  lemma LocksAreUnion(s: Locks, live: Ledger, c: nat, b: nat)
    requires Agrees(s, live) && c < MAXCARDS && b < MAXLOCKBITS
    ensures b in s.cards[c].locks <==> exists t :: t in live && live[t].slot == c && b in live[t].mask
    ensures b in s.cards[c].locks <==> s.cards[c].pids[b] != 0
  {
    assert BitAgrees(s, live, c, b);
    if b in s.cards[c].locks {
      assert EntryAgrees(s, live, s.cards[c].tags[b]);
    }
    forall t | t in live && live[t].slot == c && b in live[t].mask ensures b in s.cards[c].locks {
      assert EntryAgrees(s, live, t);
    }
  }

  /** Freeing exactly the bits of some acquisitions is what removing them means. */
  lemma FreedAgrees(s: Locks, live: Ledger, slot: nat, gone: set<nat>, bits: Bits)
    requires Agrees(s, live) && slot < MAXCARDS
    requires forall t :: t in gone && t in live ==> live[t].slot == slot
    requires forall b :: 0 <= b < MAXLOCKBITS && b in s.cards[slot].locks ==>
      (b in bits <==> s.cards[slot].tags[b] in gone)
    ensures Agrees(s.(cards := s.cards[slot := Freed(s.cards[slot], bits)]), live - gone)
  {
    var s', live' := s.(cards := s.cards[slot := Freed(s.cards[slot], bits)]), live - gone;
    forall c, b | 0 <= c < MAXCARDS && 0 <= b < MAXLOCKBITS ensures BitAgrees(s', live', c, b) {
      assert BitAgrees(s, live, c, b);
    }
    forall t | t in live' ensures EntryAgrees(s', live', t) {
      assert EntryAgrees(s, live, t);
    }
  }

  /** A granted locking SETCARD is the creation of one acquisition, under the counter's tag. */
  lemma SetCardAgrees(s: Locks, live: Ledger, f: nat, file: FileData, pid: nat, slot: nat, present: bool, mask: Bits)
    requires Agrees(s, live) && pid > 0 && IsWord(mask) && s.counter < TAG_LIMIT - 1
    ensures var (s', _, answer) := SetCard(s, file, pid, slot, present, mask);
      Agrees(s', if answer.Granted? && mask != {} then live[s.counter := Acquisition(f, pid, slot, mask)] else live)
  {
    var (s', _, answer) := SetCard(s, file, pid, slot, present, mask);
    if answer.Granted? && mask != {} {
      var live' := live[s.counter := Acquisition(f, pid, slot, mask)];
      forall c, b | 0 <= c < MAXCARDS && 0 <= b < MAXLOCKBITS ensures BitAgrees(s', live', c, b) {
        assert BitAgrees(s, live, c, b);
        if b in s.cards[c].locks {
          assert EntryAgrees(s, live, s.cards[c].tags[b]);
        }
      }
      var held := s.cards[slot].locks;
      forall b | b in mask ensures b !in held {
        assert b !in mask * held;
      }
      forall t | t in live' ensures EntryAgrees(s', live', t) {
        assert t in live ==> EntryAgrees(s, live, t);
      }
    }
  }

  lemma HeldIsUnion(s: Locks, live: Ledger, c: nat)
    requires Agrees(s, live) && c < MAXCARDS
    ensures forall b: nat :: b in s.cards[c].locks <==> exists t :: t in live && live[t].slot == c && b in live[t].mask
  {
    forall b: nat
      ensures b in s.cards[c].locks <==> exists t :: t in live && live[t].slot == c && b in live[t].mask
    {
      if b < MAXLOCKBITS {
        LocksAreUnion(s, live, c, b);
      } else {
        forall t | t in live && live[t].slot == c ensures b !in live[t].mask {
          assert EntryAgrees(s, live, t);
        }
      }
    }
  }

  /** What SETCARD does to the tables and to the file in each of its outcomes: a card that is not
      there is refused and nothing changes; an empty mask only attaches the file, with the tag
      that comes next; a conflict only moves the file to the card; a granted mask sets its bits
      with the caller's pid and the current tag on this card alone, the file gets this tag, and
      the counter goes on, from the last tag to 0. */
  lemma SetCardOutcome(s: Locks, file: FileData, pid: nat, slot: nat, present: bool, mask: Bits)
    requires Shaped(s) && IsWord(mask)
    ensures var (s', file', answer) := SetCard(s, file, pid, slot, present, mask);
      && (answer == Invalid <==> slot >= 8 || !present)
      && (answer == Invalid ==> s' == s && file' == file)
      && (answer.Conflict? ==> s' == s && file' == FileData(slot, file.tag) && answer.held == s.cards[slot].locks)
      && (answer == Granted ==> file' == FileData(slot, s.counter))
      && (answer == Granted && mask == {} ==> s' == s)
      && (answer == Granted && mask != {} ==>
            && Shaped(s') && s'.cards == s.cards[slot := s'.cards[slot]]
            && s'.counter == (s.counter + 1) % 0x1_0000_0000
            && s'.cards[slot].locks == s.cards[slot].locks + mask
            && forall b :: 0 <= b < 32 ==>
                 && s'.cards[slot].pids[b] == (if b in mask then pid else s.cards[slot].pids[b])
                 && s'.cards[slot].tags[b] == (if b in mask then s.counter else s.cards[slot].tags[b]))
  {
  }

  /** A SETCARD is refused exactly when it asks for a bit that a live acquisition holds, and
      is told all bits held on the card. */
  lemma ConflictIff(s: Locks, live: Ledger, file: FileData, pid: nat, slot: nat, mask: Bits)
    requires Agrees(s, live) && slot < MAXCARDS && IsWord(mask)
    ensures SetCard(s, file, pid, slot, true, mask).2.Conflict?
            <==> exists t :: t in live && live[t].slot == slot && live[t].mask * mask != {}
    ensures var answer := SetCard(s, file, pid, slot, true, mask).2;
      answer.Conflict? ==>
        forall b: nat :: b in answer.held <==> exists t :: t in live && live[t].slot == slot && b in live[t].mask
  {
    HeldIsUnion(s, live, slot);
    var held := s.cards[slot].locks;
    if mask * held != {} {
      var b :| b in mask && b in held;
      LocksAreUnion(s, live, slot, b);
      var t :| t in live && live[t].slot == slot && b in live[t].mask;
      assert b in live[t].mask * mask;
    }
    forall t | t in live && live[t].slot == slot && live[t].mask * mask != {} ensures mask * held != {} {
      var b :| b in live[t].mask * mask;
      LocksAreUnion(s, live, slot, b);
      assert b in mask * held;
    }
  }

  /** RELEASELOCK ends the acquisition with that tag if pid and card are its own, and
      otherwise changes nothing. */
  lemma ReleaseAgrees(s: Locks, live: Ledger, pid: nat, slot: nat, tag: nat)
    requires Agrees(s, live) && slot < MAXCARDS && pid > 0
    ensures var mine := tag in live && live[tag].pid == pid && live[tag].slot == slot;
      && Agrees(ReleaseLock(s, pid, slot, tag), if mine then live - {tag} else live)
      && (!mine ==> ReleaseLock(s, pid, slot, tag) == s)
  {
    var bits := HeldBy(s.cards[slot], pid, tag);
    forall b | 0 <= b < MAXLOCKBITS
      ensures b in bits ==> b in s.cards[slot].locks && tag in live && live[tag].pid == pid && live[tag].slot == slot
      ensures b in s.cards[slot].locks && s.cards[slot].tags[b] == tag ==>
              tag in live && s.cards[slot].pids[b] == live[tag].pid
    {
      assert BitAgrees(s, live, slot, b);
    }
    if tag in live && live[tag].pid == pid && live[tag].slot == slot {
      FreedAgrees(s, live, slot, {tag}, bits);
    } else {
      assert bits == {};
      FreedNothing(s.cards[slot]);
      assert s.cards[slot := s.cards[slot]] == s.cards;
    }
  }

  lemma FreedNothing(card: Card)
    requires |card.pids| == |card.tags| == MAXLOCKBITS
    ensures Freed(card, {}) == card
  {
    assert Freed(card, {}).pids == card.pids && Freed(card, {}).tags == card.tags;
  }

  /** RELEASELOCK is idempotent. */
  lemma ReleaseTwice(s: Locks, pid: nat, slot: nat, tag: nat)
    requires Shaped(s) && slot < MAXCARDS && pid > 0
    ensures ReleaseLock(ReleaseLock(s, pid, slot, tag), pid, slot, tag) == ReleaseLock(s, pid, slot, tag)
  {
    var s' := ReleaseLock(s, pid, slot, tag);
    assert HeldBy(s'.cards[slot], pid, tag) == {};
    FreedNothing(s'.cards[slot]);
  }

  /** After a close no bit of the card carries the file's tag. */
  lemma CloseLeavesNoTag(s: Locks, file: FileData, b: nat)
    requires Shaped(s) && file.slot < MAXCARDS && b < MAXLOCKBITS && file.tag > 0
    ensures CloseFile(s, file).cards[file.slot].tags[b] != file.tag
  {
  }

  /** The acquisitions that `f` has made. */
  function OwnedBy(live: Ledger, f: nat): set<nat> {
    set t | t in live && live[t].owner == f
  }

  /** The file's stored tag and card single out exactly its own acquisitions. */
  ghost predicate TagIsOwn(live: Ledger, f: nat, file: FileData) {
    forall t :: t in live ==> (live[t].owner == f <==> t == file.tag && live[t].slot == file.slot)
  }

  lemma CloseAgrees(s: Locks, live: Ledger, f: nat, file: FileData)
    requires Agrees(s, live) && (file.slot == NO_SLOT || file.slot < MAXCARDS) && TagIsOwn(live, f, file)
    ensures Agrees(CloseFile(s, file), live - OwnedBy(live, f))
  {
    if file.slot == NO_SLOT {
      forall t | t in live ensures EntryAgrees(s, live, t) {}
      assert OwnedBy(live, f) == {};
      assert live - OwnedBy(live, f) == live;
    } else {
      var card := s.cards[file.slot];
      forall b | 0 <= b < MAXLOCKBITS && b in card.locks
        ensures b in Tagged(card, file.tag) <==> card.tags[b] in OwnedBy(live, f)
      {
        assert BitAgrees(s, live, file.slot, b);
      }
      FreedAgrees(s, live, file.slot, OwnedBy(live, f), Tagged(card, file.tag));
    }
  }

  /** Closing a file ends exactly the file's own acquisitions if and only if its stored tag
      singles them out. */
  lemma CloseExactIff(s: Locks, live: Ledger, f: nat, file: FileData)
    requires Agrees(s, live) && (file.slot == NO_SLOT || file.slot < MAXCARDS)
    ensures Agrees(CloseFile(s, file), live - OwnedBy(live, f)) <==> TagIsOwn(live, f, file)
  {
    if TagIsOwn(live, f, file) {
      CloseAgrees(s, live, f, file);
    } else {
      var t :| t in live && !(live[t].owner == f <==> t == file.tag && live[t].slot == file.slot);
      assert EntryAgrees(s, live, t);
      var b :| b in live[t].mask;
      var s', live' := CloseFile(s, file), live - OwnedBy(live, f);
      if live[t].owner == f {
        assert b in s'.cards[live[t].slot].locks && s'.cards[live[t].slot].tags[b] == t;
        assert !BitAgrees(s', live', live[t].slot, b);
      } else {
        assert b !in s'.cards[live[t].slot].locks;
        assert !EntryAgrees(s', live', t);
      }
    }
  }

  /** Some acquisition on the card is live under this tag. */
  predicate TagInUse(live: Ledger, slot: int, tag: nat) {
    tag in live && live[tag].slot == slot
  }

  /** Closing a file changes something exactly when an acquisition on its card is live under its
      tag; the bits of that acquisition are free afterwards. */
  lemma CloseChangesIff(s: Locks, live: Ledger, slot: nat, tag: nat)
    requires Agrees(s, live) && slot < MAXCARDS
    ensures CloseFile(s, FileData(slot, tag)) == s <==> !TagInUse(live, slot, tag)
    ensures TagInUse(live, slot, tag) ==> CloseFile(s, FileData(slot, tag)).cards[slot].locks !! live[tag].mask
  {
    if TagInUse(live, slot, tag) {
      assert EntryAgrees(s, live, tag);
      var b :| b in live[tag].mask;
      assert b in s.cards[slot].locks && b in Tagged(s.cards[slot], tag);
    } else {
      UnusedTagHarmless(s, live, slot, tag);
    }
  }

  /** RELEASELOCK with one tag and the close of a file with another change nothing exactly when
      they meet no live acquisition. */
  lemma ReleaseAndCloseIff(s: Locks, live: Ledger, pid: nat, slot: nat, own: nat, tag: nat)
    requires Agrees(s, live) && pid > 0 && slot < MAXCARDS
    ensures CloseFile(ReleaseLock(s, pid, slot, own), FileData(slot, tag)) == s
            <==> !TagInUse(live, slot, tag) && !(TagInUse(live, slot, own) && live[own].pid == pid)
  {
    ReleaseAgrees(s, live, pid, slot, own);
    if TagInUse(live, slot, own) && live[own].pid == pid {
      assert EntryAgrees(s, live, own);
      var b :| b in live[own].mask;
      assert BitAgrees(s, live, slot, b);
      assert b in s.cards[slot].locks && b in HeldBy(s.cards[slot], pid, own);
      assert b !in ReleaseLock(s, pid, slot, own).cards[slot].locks;
    } else {
      CloseChangesIff(s, live, slot, tag);
    }
  }

  /** Giving an acquisition back and closing its file ends exactly this acquisition. */
  lemma ReleaseAndCloseOwn(s: Locks, live: Ledger, t: nat)
    requires Agrees(s, live) && t in live && live[t].slot < MAXCARDS && live[t].pid > 0
    ensures var a := live[t];
      Agrees(CloseFile(ReleaseLock(s, a.pid, a.slot, t), FileData(a.slot, t)), live - {t})
  {
    ReleaseAgrees(s, live, live[t].pid, live[t].slot, t);
    UnusedTagHarmless(ReleaseLock(s, live[t].pid, live[t].slot, t), live - {t}, live[t].slot, t);
  }

  lemma UnusedTagHarmless(s: Locks, live: Ledger, slot: nat, tag: nat)
    requires Agrees(s, live) && slot < MAXCARDS && !TagInUse(live, slot, tag)
    ensures CloseFile(s, FileData(slot, tag)) == s
  {
    var card := s.cards[slot];
    var bits := Tagged(card, tag);
    forall b | 0 <= b < MAXLOCKBITS && b in bits ensures b !in card.locks && card.pids[b] == 0 && card.tags[b] == 0 {
      assert BitAgrees(s, live, slot, b);
    }
    assert Freed(card, bits).pids == card.pids && Freed(card, bits).tags == card.tags;
    assert card.locks - bits == card.locks;
    assert s.cards[slot := card] == s.cards;
  }

  /** While a card is open, the XOR of get_lock_mask yields exactly the bits others hold. */
  lemma XorIsOthers(s: Locks, live: Ledger, t: nat, b: nat)
    requires Agrees(s, live) && t in live && b < MAXLOCKBITS
    ensures b in Xor(s.cards[live[t].slot].locks, live[t].mask)
            <==> exists u :: u in live && u != t && live[u].slot == live[t].slot && b in live[u].mask
  {
    assert EntryAgrees(s, live, t);
    LocksAreUnion(s, live, live[t].slot, b);
    forall u | u in live && u != t && live[u].slot == live[t].slot && b in live[u].mask ensures b !in live[t].mask {
      MasksDisjoint(s, live, t, u);
    }
  }

  /** A file attached with an empty mask stores the tag that the next locker will get: when it
      closes, the other file's bit is free again although its acquisition is still live. */
  lemma QueryFileReleasesNextLocker(pid: nat)
    requires pid > 0
    ensures var (s1, query, _) := SetCard(Loaded(), FileData(NO_SLOT, 0), pid, 0, true, {});
      var (s2, locker, answer) := SetCard(s1, FileData(NO_SLOT, 0), pid, 0, true, {3});
      answer.Granted? && s2.cards[0].locks == {3} && CloseFile(s2, query).cards[0].locks == {}
  {
    var (s1, query, _) := SetCard(Loaded(), FileData(NO_SLOT, 0), pid, 0, true, {});
    var (s2, locker, answer) := SetCard(s1, FileData(NO_SLOT, 0), pid, 0, true, {3});
    assert s2.cards[0].tags[3] == 1 == query.tag;
    assert 3 in Tagged(s2.cards[0], query.tag);
  }

  /** After `clearlock` the next acquisition gets tag 0, the mark of every unlocked bit: a
      second file whose conflicting SETCARD left its tag at 0 frees the bit by closing. */
  lemma ClearLockReusesZero(pid: nat)
    requires pid > 0
    ensures var (s1, locker, _) := SetCard(ClearLocks(), FileData(NO_SLOT, 0), pid, 0, true, {3});
      var (s2, loser, answer) := SetCard(s1, FileData(NO_SLOT, 0), pid, 0, true, {3});
      answer == Conflict({3}) && locker.tag == 0 && CloseFile(s2, loser).cards[0].locks == {}
  {
    var (s1, locker, _) := SetCard(ClearLocks(), FileData(NO_SLOT, 0), pid, 0, true, {3});
    assert {3} * EmptyCard().locks == {} && {3} * {3} == {3};
    assert 3 in Tagged(s1.cards[0], 0);
  }

  /** A second locking SETCARD on a file replaces the stored tag: closing the file then leaves
      the bit of the first one locked. */
  lemma SecondLockOrphansFirst(pid: nat)
    requires pid > 0
    ensures var (s1, file1, first) := SetCard(Loaded(), FileData(NO_SLOT, 0), pid, 0, true, {3});
      var (s2, file2, second) := SetCard(s1, file1, pid, 0, true, {4});
      first.Granted? && second.Granted? && CloseFile(s2, file2).cards[0].locks == {3}
  {
    var (s1, file1, _) := SetCard(Loaded(), FileData(NO_SLOT, 0), pid, 0, true, {3});
    assert {3} * EmptyCard().locks == {} && {4} * s1.cards[0].locks == {};
    var (s2, file2, _) := SetCard(s1, file1, pid, 0, true, {4});
    assert s2.cards[0].tags[3] == 1 && s2.cards[0].tags[4] == 2 == file2.tag;
    assert 4 in Tagged(s2.cards[0], 2) && 3 !in Tagged(s2.cards[0], 2);
  }

  /** A refused SETCARD for another card still moves the file there: closing the file then
      leaves the bit that it holds on its first card locked. */
  lemma RefusedAttachOrphansLock(pid: nat)
    requires pid > 0
    ensures var (s1, other, _) := SetCard(Loaded(), FileData(NO_SLOT, 0), pid, 1, true, {5});
      var (s2, file, granted) := SetCard(s1, FileData(NO_SLOT, 0), pid, 0, true, {3});
      var (s3, moved, refused) := SetCard(s2, file, pid, 1, true, {5});
      granted.Granted? && refused.Conflict? && CloseFile(s3, moved).cards[0].locks == {3}
  {
    var (s1, other, _) := SetCard(Loaded(), FileData(NO_SLOT, 0), pid, 1, true, {5});
    assert {5} * EmptyCard().locks == {} && {3} * EmptyCard().locks == {} && {5} * {5} == {5};
    var (s2, file, _) := SetCard(s1, FileData(NO_SLOT, 0), pid, 0, true, {3});
    assert s2.cards[1].locks == {5};
    var (s3, moved, _) := SetCard(s2, file, pid, 1, true, {5});
    assert moved.slot == 1;
  }
}
