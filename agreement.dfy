/** How the two stores compare, seat by seat. While no hold has outlived its
    deadline, holdSeat and confirmSeat give the same answer and the same
    next status in both stores. They part ways on an expired hold (the
    lock-free word has no deadline) and on releasing a Sold seat. */
module Agreement {
  import opened Seats
  import LockBased
  import LockFree

  /** The lock-free status code that stands for a lock-based status. */
  function AsAtomic(st: SeatStatus): (a: LockFree.AtomicStatus)
    ensures a.Code() == match st case Available => 0 case Held => 1 case Sold => 2
  {
    match st
    case Available => LockFree.Available
    case Held => LockFree.Held
    case Sold => LockFree.Sold
  }

  /** A seat record and a word describe the same state (ownership aside). */
  predicate SameStatus(s: Seat, w: int)
  {
    LockFree.WellFormed(w) && AsAtomic(s.status) == LockFree.StatusOf(w)
  }

  /** With no expired hold in play, a hold succeeds in one store exactly when
      it succeeds in the other, and both leave the seat in the same status. */
  lemma HoldAgreesWhileLive(s: Seat, w: int, name: string, u: int, durationSeconds: int, now: Time)
    requires SameStatus(s, w) && 0 <= u < LockFree.HolderLimit
    requires !LockBased.Expired(s, now)
    ensures LockBased.Hold(s, name, durationSeconds, now).ok == LockFree.HoldWord(w, u).ok
    ensures SameStatus(LockBased.Hold(s, name, durationSeconds, now).seat, LockFree.HoldWord(w, u).word)
  {
  }

  /** With no expired hold in play, and with the caller matching the owner
      in one store exactly when it matches the holder in the other, a
      confirm agrees in its answer and in the status it leaves. */
  lemma ConfirmAgreesWhileLive(s: Seat, w: int, name: string, u: int, now: Time)
    requires SameStatus(s, w)
    requires s.userId == name <==> LockFree.Holder(w) == u
    requires !LockBased.Expired(s, now)
    ensures LockBased.Confirm(s, name, now).ok == LockFree.ConfirmWord(w, u).ok
    ensures SameStatus(LockBased.Confirm(s, name, now).seat, LockFree.ConfirmWord(w, u).word)
  {
  }

  /** An expired hold: the lock-based store lets a new caller take the seat,
      the lock-free store still refuses. */
  lemma ExpiredHoldDisagrees(s: Seat, w: int, name: string, u: int, durationSeconds: int, now: Time)
    requires SameStatus(s, w) && 0 <= u < LockFree.HolderLimit
    requires LockBased.Expired(s, now)
    ensures LockBased.Hold(s, name, durationSeconds, now).ok
    ensures !LockFree.HoldWord(w, u).ok && LockFree.HoldWord(w, u).word == w
  {
  }

  /** Releasing agrees on every seat that is not Sold; on a Sold seat the
      lock-based store frees it and the lock-free store refuses. */
  lemma ReleaseComparison(s: Seat, w: int)
    requires SameStatus(s, w)
    ensures s.status != Sold ==>
              LockBased.Release(s).ok && LockFree.ReleaseWord(w).ok &&
              SameStatus(LockBased.Release(s).seat, LockFree.ReleaseWord(w).word)
    ensures s.status == Sold ==>
              LockBased.Release(s).ok && LockBased.Release(s).seat.status == Available &&
              !LockFree.ReleaseWord(w).ok && LockFree.ReleaseWord(w).word == w
  {
  }
}
