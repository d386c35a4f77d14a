/** The lock side of the object through which a program uses a card: opening it with a lock
    mask, closing it, and asking which bits of a card others hold. */
module CardObject {
  import opened LockManager
  import opened LockSpec
  import opened Wrappers

  /** Some live acquisition holds the bit. */
  ghost predicate Held(live: Ledger, slot: int, b: nat) {
    exists u :: u in live && live[u].slot == slot && b in live[u].mask
  }

  /** An acquisition other than `t` holds the bit. */
  ghost predicate HeldByOthers(live: Ledger, slot: int, t: nat, b: nat) {
    exists u :: u in live && u != t && live[u].slot == slot && b in live[u].mask
  }

  class WupperCard {
    const pid: nat
    var file: CardFile?
    var deviceNumber: int
    var myLocks: Bits
    var myLockTag: nat

    constructor (pid: nat)
      ensures this.pid == pid && file == null && deviceNumber == -1 && myLocks == {} && myLockTag == 0
    {
      this.pid := pid;
      file, deviceNumber, myLocks, myLockTag := null, -1, {}, 0;
    }

    /** The object remembers its own live acquisition, if it has asked for bits. */
    ghost predicate Linked(live: Ledger)
      reads this, file
    {
      file != null && (myLocks != {} ==>
        && myLockTag in live && live[myLockTag].pid == pid && live[myLockTag].slot == deviceNumber
        && live[myLockTag].mask == myLocks && file.View() == FileData(live[myLockTag].slot, myLockTag))
    }

    /** card_open up to the mapping of the registers; `owner` names the new file.  A refused
        attach closes the file again; that leaves no trace exactly when tag 0, which the new file
        has, is not in use on the card. */
    method Open(lm: LockManager, device: nat, present: bool, mask: Bits, ghost live: Ledger, ghost owner: nat)
      returns (ok: bool)
      requires lm.Valid() && Agrees(lm.State(), live) && lm.lockTag < TAG_LIMIT - 1
      requires pid > 0 && IsWord(mask)
      modifies this, lm, lm.globalLocks, lm.lockPid, lm.lockTags
      ensures ok <==> device < MAXCARDS && present && mask * old(lm.State()).cards[device].locks == {}
      ensures !ok ==> file == null && deviceNumber == old(deviceNumber)
                      && myLocks == old(myLocks) && myLockTag == old(myLockTag)
      ensures !ok ==> (lm.State() == old(lm.State()) <==> !(device < MAXCARDS && present && TagInUse(live, device, 0)))
      ensures ok ==> fresh(file) && deviceNumber == device && myLocks == mask
      ensures ok ==>
        var now := if mask == {} then live else live[old(lm.lockTag) := Acquisition(owner, pid, device, mask)];
        Agrees(lm.State(), now) && Linked(now)
    {
      var node := new CardFile();
      file := node;
      ghost var before := lm.State();
      var tag := if mask == {} then 0 else lm.lockTag;
      var answer := lm.SetCardIoctl(node, pid, device, present, mask);
      SetCardAgrees(before, live, owner, FileData(NO_SLOT, 0), pid, device, present, mask);
      ok := answer.Granted?;
      if !ok {
        if node.slot != NO_SLOT {
          CloseChangesIff(before, live, device, 0);
        }
        lm.CloseDevice(node);
        file := null;
        return;
      }
      myLockTag := tag;
      myLocks := mask;
      deviceNumber := device;
    }

    /** card_close: give the bits back, then close the file.  An object that asked for no bits
        takes none away exactly when neither its tag nor its file's is in use on the card. */
    method Close(lm: LockManager, ghost live: Ledger)
      requires lm.Valid() && pid > 0
      requires file != null ==> 0 <= deviceNumber < MAXCARDS && (file.slot == NO_SLOT || file.slot < MAXCARDS)
      modifies this`file, lm.globalLocks, lm.lockPid, lm.lockTags
      ensures file == null
      ensures old(file) == null ==> lm.State() == old(lm.State())
      ensures old(file) != null ==>
        lm.State() == CloseFile(ReleaseLock(old(lm.State()), pid, deviceNumber, myLockTag), old(file.View()))
      ensures old(Agrees(lm.State(), live) && Linked(live)) && myLocks != {} ==> Agrees(lm.State(), live - {myLockTag})
      ensures old(file != null && Agrees(lm.State(), live) && file.slot == deviceNumber) ==>
        (lm.State() == old(lm.State())
         <==> !TagInUse(live, deviceNumber, old(file.View()).tag)
              && !(TagInUse(live, deviceNumber, myLockTag) && live[myLockTag].pid == pid))
    {
      if file == null {
        return;
      }
      ghost var before := lm.State();
      if Agrees(before, live) {
        ReleaseAndCloseIff(before, live, pid, deviceNumber, myLockTag, file.tag);
      }
      if Agrees(before, live) && Linked(live) && myLocks != {} {
        ReleaseAndCloseOwn(before, live, myLockTag);
      }
      lm.ReleaseLockIoctl(pid, deviceNumber, myLockTag);
      lm.CloseDevice(file);
      file := null;
    }

    /** get_lock_mask.  On a closed object it attaches without lock bits for the question and
        closes again; if that attach fails, the new file stays open.  The object's own bits are
        taken out of the answer even when it no longer holds them: on an open object the
        answer is exactly what others hold, on a closed one it is what is held if and only if
        the question is about another card or the object last asked for no bits. */
    method GetLockMask(lm: LockManager, device: nat, present: bool, ghost live: Ledger) returns (res: Option<Bits>)
      requires lm.Valid() && Agrees(lm.State(), live) && pid > 0 && IsWord(myLocks)
      modifies this`file, lm, lm.globalLocks, lm.lockPid, lm.lockTags
      ensures lm.State() == old(lm.State())
      ensures res.Some? <==> device < MAXCARDS && (old(file) != null || present)
      ensures old(file) != null || res.Some? ==> file == old(file)
      ensures old(file) == null && res.None? ==> fresh(file)
      ensures res.Some? && old(file != null && Linked(live)) ==> forall b :: 0 <= b < MAXLOCKBITS ==>
        (b in res.value <==> if myLocks == {} then Held(live, device, b) else HeldByOthers(live, device, myLockTag, b))
      ensures res.Some? && old(file) == null ==>
        ((forall b :: 0 <= b < MAXLOCKBITS ==> (b in res.value <==> Held(live, device, b)))
         <==> device != deviceNumber || myLocks == {})
    {
      var closeIt := file == null;
      CounterUnused(lm.State(), live);
      if closeIt {
        var node := new CardFile();
        file := node;
        var answer := lm.SetCardIoctl(node, pid, device, present, {});
        if answer == Invalid {
          return None;
        }
      }
      res := lm.GetLockIoctl(device);
      if res == None {
        return;
      }
      ghost var word := res.value;
      var locks := res.value;
      if device == deviceNumber {
        locks := Xor(locks, myLocks);
      }
      if closeIt {
        UnusedTagHarmless(lm.State(), live, device, lm.lockTag);
        lm.CloseDevice(file);
        file := null;
      }
      forall b | 0 <= b < MAXLOCKBITS ensures b in word <==> Held(live, device, b) {
        LocksAreUnion(lm.State(), live, device, b);
      }
      if old(file != null && Linked(live)) && myLocks != {} {
        OwnBits(lm.State(), live, device, deviceNumber, myLockTag);
      }
      res := Some(locks);
    }
  }

  /** No live acquisition has the counter's tag. */
  lemma CounterUnused(s: Locks, live: Ledger)
    requires Agrees(s, live)
    ensures s.counter !in live
  {
    assert s.counter in live ==> EntryAgrees(s, live, s.counter);
  }

  /** Without the bits of `t`, a lock word holds exactly what others hold. */
  lemma OwnBits(s: Locks, live: Ledger, slot: nat, own: int, t: nat)
    requires Agrees(s, live) && slot < MAXCARDS && t in live && live[t].slot == own
    ensures forall b :: 0 <= b < MAXLOCKBITS ==>
      (HeldByOthers(live, slot, t, b) <==>
       b in if slot == own then Xor(s.cards[slot].locks, live[t].mask) else s.cards[slot].locks)
  {
    forall b | 0 <= b < MAXLOCKBITS
      ensures HeldByOthers(live, slot, t, b) <==>
              b in if slot == own then Xor(s.cards[slot].locks, live[t].mask) else s.cards[slot].locks
    {
      LocksAreUnion(s, live, slot, b);
      if slot == own {
        XorIsOthers(s, live, t, b);
      }
    }
  }
}
