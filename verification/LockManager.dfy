/** The lock tables of the wupper driver as arrays, updated bit by bit under the spinlock.
    Each ioctl is proved to compute the operation of `LockSpec`. */
module LockManager {
  import opened LockSpec
  import opened Wrappers

  /** The private data of an open device file. */
  class CardFile {
    var slot: nat
    var tag: nat

    /** wupper_open; the tag field is taken to start at 0. */
    constructor ()
      ensures View() == FileData(NO_SLOT, 0)
    {
      slot, tag := NO_SLOT, 0;
    }

    function View(): FileData
      reads this
    {
      FileData(slot, tag)
    }
  }

  class LockManager {
    const globalLocks: array<Bits>
    const lockPid: array2<nat>
    const lockTags: array2<nat>
    var lockTag: nat

    ghost predicate Valid() {
      && lockPid != lockTags
      && globalLocks.Length == MAXCARDS
      && lockPid.Length0 == lockTags.Length0 == MAXCARDS
      && lockPid.Length1 == lockTags.Length1 == MAXLOCKBITS
    }

    ghost function CardAt(c: nat): (card: Card)
      requires Valid() && c < MAXCARDS
      reads globalLocks, lockPid, lockTags
      ensures |card.pids| == |card.tags| == MAXLOCKBITS
    {
      Card(globalLocks[c],
           seq(MAXLOCKBITS, b requires 0 <= b < MAXLOCKBITS reads lockPid, lockTags => lockPid[c, b]),
           seq(MAXLOCKBITS, b requires 0 <= b < MAXLOCKBITS reads lockPid, lockTags => lockTags[c, b]))
    }

    ghost function Cards(): (cards: seq<Card>)
      requires Valid()
      reads globalLocks, lockPid, lockTags
      ensures |cards| == MAXCARDS && forall c :: 0 <= c < MAXCARDS ==> cards[c] == CardAt(c)
    {
      seq(MAXCARDS, c requires 0 <= c < MAXCARDS reads globalLocks, lockPid, lockTags => CardAt(c))
    }

    ghost function State(): (s: Locks)
      requires Valid()
      reads this, globalLocks, lockPid, lockTags
      ensures Shaped(s)
    {
      Locks(Cards(), lockTag)
    }

    constructor ()
      ensures Valid() && State() == Loaded()
      ensures fresh(globalLocks) && fresh(lockPid) && fresh(lockTags)
    {
      globalLocks := new Bits[MAXCARDS](_ => {});
      lockPid := new nat[MAXCARDS, MAXLOCKBITS]((_, _) => 0);
      lockTags := new nat[MAXCARDS, MAXLOCKBITS]((_, _) => 0);
      lockTag := 1;
      new;
      assert forall c :: 0 <= c < MAXCARDS ==> CardAt(c) == EmptyCard();
    }

    /** Enter `pid` and `tag` for the bits of `mask` on one card. */
    method Register(slot: nat, mask: Bits, pid: nat, tag: nat)
      requires Valid() && slot < MAXCARDS
      modifies lockPid, lockTags
      ensures CardAt(slot) == Marked(old(CardAt(slot)), mask, pid, tag)
      ensures forall c :: 0 <= c < MAXCARDS && c != slot ==> CardAt(c) == old(CardAt(c))
    {
      for lbit := 0 to MAXLOCKBITS
        invariant forall c, b :: 0 <= c < MAXCARDS && 0 <= b < MAXLOCKBITS ==>
          lockPid[c, b] == if c == slot && b < lbit && b in mask then pid else old(lockPid[c, b])
        invariant forall c, b :: 0 <= c < MAXCARDS && 0 <= b < MAXLOCKBITS ==>
          lockTags[c, b] == if c == slot && b < lbit && b in mask then tag else old(lockTags[c, b])
      {
        if lbit in mask {
          lockPid[slot, lbit] := pid;
          lockTags[slot, lbit] := tag;
        }
      }
    }

    method Acquire(slot: nat, mask: Bits, pid: nat, tag: nat)
      requires Valid() && slot < MAXCARDS
      modifies globalLocks, lockPid, lockTags
      ensures Cards() == old(Cards()[slot := Acquired(CardAt(slot), mask, pid, tag)])
    {
      globalLocks[slot] := globalLocks[slot] + mask;
      label marked:
      Register(slot, mask, pid, tag);
      forall c | 0 <= c < MAXCARDS
        ensures CardAt(c) == if c == slot then old(Acquired(CardAt(slot), mask, pid, tag)) else old(CardAt(c))
      {
        assert CardAt(c) == if c == slot then old@marked(Marked(CardAt(slot), mask, pid, tag))
               else old@marked(CardAt(c));
        assert old@marked(CardAt(c)) == old(CardAt(c)).(locks := globalLocks[c]);
      }
    }

    /** The SETCARD ioctl. */
    method SetCardIoctl(file: CardFile, pid: nat, slot: nat, present: bool, mask: Bits) returns (answer: Answer)
      requires Valid()
      modifies this, globalLocks, lockPid, lockTags, file
      ensures (State(), file.View(), answer) == SetCard(old(State()), old(file.View()), pid, slot, present, mask)
    {
      if slot >= MAXCARDS || !present {
        return Invalid;
      }
      answer := Granted;
      if mask != {} {
        if mask * globalLocks[slot] != {} {
          answer := Conflict(globalLocks[slot]);
        } else {
          Acquire(slot, mask, pid, lockTag);
          file.tag := lockTag;
          lockTag := (lockTag + 1) % TAG_LIMIT;
        }
      } else {
        file.tag := lockTag;
      }
      file.slot := slot;
    }

    /** Clear the entries of one card under `tag`: those of `pid`, or those of any process. */
    method Unregister(slot: nat, anyPid: bool, pid: nat, tag: nat, ghost bits: Bits)
      requires Valid() && slot < MAXCARDS
      requires bits == if anyPid then Tagged(CardAt(slot), tag) else HeldBy(CardAt(slot), pid, tag)
      modifies globalLocks, lockPid, lockTags
      ensures Cards() == old(Cards()[slot := Freed(CardAt(slot), bits)])
    {
      for lbit := 0 to MAXLOCKBITS
        invariant forall c :: 0 <= c < MAXCARDS ==>
          globalLocks[c] == if c == slot then old(globalLocks[c]) - (set b | b in bits && b < lbit)
              else old(globalLocks[c])
        invariant forall c, b :: 0 <= c < MAXCARDS && 0 <= b < MAXLOCKBITS ==>
          lockPid[c, b] == if c == slot && b < lbit && b in bits then 0 else old(lockPid[c, b])
        invariant forall c, b :: 0 <= c < MAXCARDS && 0 <= b < MAXLOCKBITS ==>
          lockTags[c, b] == if c == slot && b < lbit && b in bits then 0 else old(lockTags[c, b])
      {
        if (anyPid || lockPid[slot, lbit] == pid) && lockTags[slot, lbit] == tag {
          lockPid[slot, lbit] := 0;
          lockTags[slot, lbit] := 0;
          globalLocks[slot] := globalLocks[slot] - {lbit};
        }
      }
      assert (set b | b in bits && b < MAXLOCKBITS) == bits;
      forall c | 0 <= c < MAXCARDS
        ensures CardAt(c) == if c == slot then Freed(old(CardAt(c)), bits) else old(CardAt(c)) {}
    }

    /** The RELEASELOCK ioctl. */
    method ReleaseLockIoctl(pid: nat, slot: nat, tag: nat)
      requires Valid() && pid > 0 && slot < MAXCARDS
      modifies globalLocks, lockPid, lockTags
      ensures State() == ReleaseLock(old(State()), pid, slot, tag)
    {
      Unregister(slot, false, pid, tag, HeldBy(CardAt(slot), pid, tag));
    }

    /** wupper_Release. */
    method CloseDevice(file: CardFile)
      requires Valid() && (file.slot == NO_SLOT || file.slot < MAXCARDS)
      modifies globalLocks, lockPid, lockTags
      ensures State() == CloseFile(old(State()), file.View())
    {
      if file.slot != NO_SLOT {
        Unregister(file.slot, true, 0, file.tag, Tagged(CardAt(file.slot), file.tag));
      }
    }

    /** The `clearlock` command. */
    method ClearAll()
      requires Valid()
      modifies this`lockTag, globalLocks, lockPid, lockTags
      ensures State() == ClearLocks()
    {
      for loop := 0 to MAXCARDS
        invariant forall c :: 0 <= c < loop ==> globalLocks[c] == {}
        invariant forall c, b :: 0 <= c < loop && 0 <= b < MAXLOCKBITS ==> lockPid[c, b] == 0 && lockTags[c, b] == 0
      {
        globalLocks[loop] := {};
        for loop2 := 0 to MAXLOCKBITS
          invariant forall c :: 0 <= c <= loop ==> globalLocks[c] == {}
          invariant forall b :: 0 <= b < loop2 ==> lockPid[loop, b] == 0 && lockTags[loop, b] == 0
          invariant forall c, b :: 0 <= c < loop && 0 <= b < MAXLOCKBITS ==> lockPid[c, b] == 0 && lockTags[c, b] == 0
        {
          lockPid[loop, loop2] := 0;
          lockTags[loop, loop2] := 0;
        }
      }
      lockTag := 0;
      assert forall c :: 0 <= c < MAXCARDS ==> CardAt(c) == EmptyCard();
    }

    /** The GETLOCK ioctl; an invalid slot is refused. */
    method GetLockIoctl(slot: nat) returns (res: Option<Bits>)
      requires Valid()
      ensures res == if slot < MAXCARDS then Some(State().cards[slot].locks) else None
    {
      if slot >= MAXCARDS {
        return None;
      }
      res := Some(globalLocks[slot]);
    }
  }
}
