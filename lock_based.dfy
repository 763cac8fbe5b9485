/** The lock-based store: one record per seat id 1..N, each guarded by its
    own mutex. Every operation takes one seat's lock for one
    read-check-modify step, so each call is modelled here as a single
    sequential step on the table; the current time is a parameter. */
module LockBased {
  import opened Seats

  /** One entry of a state report: (seatId, status, owner). */
  datatype SeatInfo = SeatInfo(seatId: int, status: SeatStatus, userId: string)

  /** The outcome of one operation on one seat: its boolean result and the
      seat afterwards. */
  datatype Step = Step(ok: bool, seat: Seat)

  /** The (seatId, status, owner) triple getSeatStates reports for a seat. */
  function Info(s: Seat): (r: SeatInfo)
    ensures r.seatId == s.seatId && r.status == s.status && r.userId == s.userId
  {
    SeatInfo(s.seatId, s.status, s.userId)
  }

  /** A hold whose deadline has passed. */
  predicate Expired(s: Seat, now: Time): (b: bool)
    ensures b ==> s.status == Held && s.holdExpiry < now
  {
    s.status == Held && now > s.holdExpiry
  }

  /** The expiry check shared by holdSeat and the sweep: an expired hold
      reverts to Available and loses its owner; the deadline is left as it
      was. */
  function ExpireHold(s: Seat, now: Time): (r: Seat)
    ensures r.seatId == s.seatId && r.holdExpiry == s.holdExpiry
    ensures !Expired(r, now)
    ensures !Expired(s, now) ==> r == s
    ensures Expired(s, now) ==> r.status == Available && r.userId == ""
  {
    if Expired(s, now) then s.(status := Available, userId := "") else s
  }

  /** The locked body of holdSeat: after lazy expiry, succeed exactly when
      the seat is Available. */
  function Hold(s: Seat, userId: string, holdDurationSeconds: int, now: Time): (r: Step)
    ensures r.ok <==> s.status == Available || Expired(s, now)
    ensures r.ok ==> r.seat == Seat(s.seatId, Held, userId, now + holdDurationSeconds)
    ensures !r.ok ==> r.seat == s
  {
    var seat := ExpireHold(s, now);
    if seat.status == Available then
      Step(true, seat.(status := Held, userId := userId, holdExpiry := now + holdDurationSeconds))
    else
      Step(false, seat)
  }

  /** The locked body of confirmSeat: only the holder, before the deadline,
      turns the hold into a sale; the holder arriving too late finds the
      seat reverted to Available. */
  function Confirm(s: Seat, userId: string, now: Time): (r: Step)
    ensures r.ok <==> s.status == Held && s.userId == userId && now <= s.holdExpiry
    ensures r.ok ==> r.seat == s.(status := Sold)
    ensures s.status == Held && s.userId == userId && now > s.holdExpiry ==>
              r.seat == s.(status := Available, userId := "")
    ensures !(s.status == Held && s.userId == userId) ==> r.seat == s
  {
    if s.status == Held && s.userId == userId then
      if now <= s.holdExpiry then Step(true, s.(status := Sold))
      else Step(false, s.(status := Available, userId := ""))
    else
      Step(false, s)
  }

  /** The locked body of releaseSeat: whatever the status, Sold included,
      the seat becomes Available with no owner. */
  function Release(s: Seat): (r: Step)
    ensures r.ok
    ensures r.seat.status == Available && r.seat.userId == ""
    ensures r.seat.seatId == s.seatId && r.seat.holdExpiry == s.holdExpiry
  {
    Step(true, s.(status := Available, userId := ""))
  }

  /** The effect of one cleanupExpiredHolds pass on the whole table. */
  function Sweep(t: map<int, Seat>, now: Time): (r: map<int, Seat>)
    ensures r.Keys == t.Keys
    ensures forall k :: k in r ==> !Expired(r[k], now)
    ensures forall k :: k in t && !Expired(t[k], now) ==> r[k] == t[k]
    ensures forall k :: k in t && Expired(t[k], now) ==>
              r[k] == t[k].(status := Available, userId := "")
  {
    map k | k in t :: ExpireHold(t[k], now)
  }

  /** The ids the constructor creates: 1..n, none when n is not positive. */
  function IdRange(n: int): (r: set<int>)
    ensures forall k :: k in r <==> 1 <= k <= n
    ensures |r| == if n < 1 then 0 else n
  {
    if n < 1 then {} else IdRange(n - 1) + {n}
  }

  /** The table invariant: ids are exactly 1..size, each record carries its
      own id, and every Available seat has no owner. */
  ghost predicate ValidTable(t: map<int, Seat>)
  {
    (forall k :: k in t <==> 1 <= k <= |t|) &&
    (forall k :: k in t ==> t[k].seatId == k && OwnerInvariant(t[k]))
  }

  /** The public operations, as values, so that runs of them can be stated. */
  datatype Op =
    | HoldOp(seatId: int, userId: string, holdDurationSeconds: int, now: Time)
    | ConfirmOp(seatId: int, userId: string, now: Time)
    | ReleaseOp(seatId: int)
    | CleanupOp(now: Time)

  /** The table after one operation. An id that is not in the table leaves
      it as it was. */
  function Apply(t: map<int, Seat>, op: Op): (r: map<int, Seat>)
    ensures r.Keys == t.Keys
  {
    match op
    case HoldOp(id, u, d, now) =>
      if id in t then t[id := Hold(t[id], u, d, now).seat] else t
    case ConfirmOp(id, u, now) =>
      if id in t then t[id := Confirm(t[id], u, now).seat] else t
    case ReleaseOp(id) =>
      if id in t then t[id := Release(t[id]).seat] else t
    case CleanupOp(now) =>
      Sweep(t, now)
  }

  /** The table after a sequence of operations. */
  function Run(t: map<int, Seat>, ops: seq<Op>): map<int, Seat>
  {
    if ops == [] then t else Run(Apply(t, ops[0]), ops[1..])
  }

  /** Every operation keeps the table invariant: the id set never changes
      and every path to Available clears the owner. */
  lemma ApplyPreservesValid(t: map<int, Seat>, op: Op)
    requires ValidTable(t)
    ensures ValidTable(Apply(t, op))
  {
  }

  /** ... and so does any sequence of them. */
  lemma {:induction false} RunPreservesValid(t: map<int, Seat>, ops: seq<Op>)
    requires ValidTable(t)
    ensures ValidTable(Run(t, ops)) && Run(t, ops).Keys == t.Keys
  {
    if ops != [] {
      ApplyPreservesValid(t, ops[0]);
      RunPreservesValid(Apply(t, ops[0]), ops[1..]);
    }
  }

  /** Time alone never moves a Sold seat: hold, confirm and the sweep leave
      it as it is, so only release takes it out of Sold. */
  lemma SoldLeftOnlyByRelease(t: map<int, Seat>, op: Op, k: int)
    requires k in t && t[k].status == Sold
    requires !op.ReleaseOp?
    ensures Apply(t, op)[k] == t[k]
  {
  }

  /** Sweeping twice at the same instant is sweeping once. */
  lemma SweepIdempotent(t: map<int, Seat>, now: Time)
    ensures Sweep(Sweep(t, now), now) == Sweep(t, now)
  {
  }

  /** Once every hold's deadline is behind `now`, a sweep leaves no seat
      Held: the pool has converged to Available and Sold seats. */
  lemma SweepConverges(t: map<int, Seat>, now: Time)
    requires forall k :: k in t && t[k].status == Held ==> t[k].holdExpiry < now
    ensures forall k :: k in t ==> Sweep(t, now)[k].status != Held
  {
  }

  /** Lazy expiry: once a hold's deadline has passed, its holder's confirm
      fails and reverts the seat to Available, and another caller's hold
      then succeeds, with no sweep in between. */
  lemma LazyExpiry(s: Seat, a: string, b: string, ttl: int, t0: Time, t1: Time)
    requires s.status == Available
    requires t1 > t0 + ttl
    ensures var held := Hold(s, a, ttl, t0);
            var late := Confirm(held.seat, a, t1);
            held.ok && !late.ok && late.seat.status == Available &&
            Hold(late.seat, b, ttl, t1).ok
  {
  }

  /** Holds exclude each other: after a successful hold with a
      non-negative duration, no second hold succeeds until the deadline
      has passed. */
  lemma HoldExcludes(s: Seat, a: string, b: string, d: int, d2: int, now: Time, now2: Time)
    requires Hold(s, a, d, now).ok && d >= 0
    requires now2 <= now + d
    ensures !Hold(Hold(s, a, d, now).seat, b, d2, now2).ok
    ensures Hold(Hold(s, a, d, now).seat, b, d2, now2).seat == Hold(s, a, d, now).seat
  {
  }

  /** A negative duration makes a hold that has lapsed the moment it is
      made: a second caller takes the seat at the same instant. */
  lemma NegativeDurationLapsesAtOnce(s: Seat, a: string, b: string, d: int, d2: int, now: Time)
    requires s.status == Available && d < 0
    ensures Hold(s, a, d, now).ok
    ensures Hold(Hold(s, a, d, now).seat, b, d2, now).ok
    ensures Hold(Hold(s, a, d, now).seat, b, d2, now).seat.userId == b
  {
  }

  /** A confirm by someone other than the holder fails and changes nothing. */
  lemma OwnershipEnforced(s: Seat, a: string, b: string, ttl: int, t0: Time, t1: Time)
    requires s.status == Available && a != b
    ensures var held := Hold(s, a, ttl, t0);
            var other := Confirm(held.seat, b, t1);
            !other.ok && other.seat == held.seat &&
            other.seat.status == Held && other.seat.userId == a
  {
  }

  /** The invariant holds one way only: a hold by the empty name leaves a
      Held seat with no owner. */
  lemma EmptyOwnerMayHold(s: Seat, ttl: int, now: Time)
    requires s.status == Available
    ensures Hold(s, "", ttl, now).ok
    ensures Hold(s, "", ttl, now).seat.status == Held && Hold(s, "", ttl, now).seat.userId == ""
  {
  }

  /** The lock-based seat table. The map stands for the unordered map from
      id to mutex-guarded container; each method replaces the record of one
      id, as the locked section rewrites it in place. */
  class SeatManager {
    var seats: map<int, Seat>

    ghost predicate Valid()
      reads this
    {
      ValidTable(seats)
    }

    /** Creates ids 1..totalSeats, every seat Available with no owner; a
        non-positive count creates none. */
    constructor (totalSeats: int)
      ensures Valid()
      ensures forall k :: k in seats <==> 1 <= k <= totalSeats
      ensures |seats| == if totalSeats < 1 then 0 else totalSeats
      ensures forall k :: k in seats ==> seats[k] == NewSeat(k)
    {
      var t: map<int, Seat> := map[];
      var i := 1;
      while i <= totalSeats
        invariant 1 <= i <= if totalSeats < 1 then 1 else totalSeats + 1
        invariant t.Keys == IdRange(i - 1)
        invariant forall k :: k in t ==> t[k] == NewSeat(k)
      {
        t := t[i := NewSeat(i)];
        i := i + 1;
      }
      assert |t| == i - 1 by {
        assert |t.Keys| == |IdRange(i - 1)|;
      }
      seats := t;
    }

    method HoldSeat(seatId: int, userId: string, holdDurationSeconds: int, now: Time) returns (ok: bool)
      requires Valid()
      modifies this
      ensures Valid()
      ensures ok == (seatId in old(seats) && Hold(old(seats)[seatId], userId, holdDurationSeconds, now).ok)
      ensures seats == Apply(old(seats), HoldOp(seatId, userId, holdDurationSeconds, now))
    {
      ApplyPreservesValid(seats, HoldOp(seatId, userId, holdDurationSeconds, now));
      if seatId !in seats {
        return false;
      }
      var seat := seats[seatId];
      if seat.status == Held && now > seat.holdExpiry {
        seat := seat.(status := Available, userId := "");
        seats := seats[seatId := seat];
      }
      if seat.status == Available {
        seat := seat.(status := Held, userId := userId, holdExpiry := now + holdDurationSeconds);
        seats := seats[seatId := seat];
        return true;
      }
      return false;
    }

    method ConfirmSeat(seatId: int, userId: string, now: Time) returns (ok: bool)
      requires Valid()
      modifies this
      ensures Valid()
      ensures ok == (seatId in old(seats) && Confirm(old(seats)[seatId], userId, now).ok)
      ensures seats == Apply(old(seats), ConfirmOp(seatId, userId, now))
    {
      ApplyPreservesValid(seats, ConfirmOp(seatId, userId, now));
      if seatId !in seats {
        return false;
      }
      var seat := seats[seatId];
      if seat.status == Held && seat.userId == userId {
        if now <= seat.holdExpiry {
          seats := seats[seatId := seat.(status := Sold)];
          return true;
        } else {
          seats := seats[seatId := seat.(status := Available, userId := "")];
          return false;
        }
      }
      return false;
    }

    method ReleaseSeat(seatId: int) returns (ok: bool)
      requires Valid()
      modifies this
      ensures Valid()
      ensures ok == (seatId in old(seats))
      ensures seats == Apply(old(seats), ReleaseOp(seatId))
    {
      ApplyPreservesValid(seats, ReleaseOp(seatId));
      if seatId !in seats {
        return false;
      }
      seats := seats[seatId := seats[seatId].(status := Available, userId := "")];
      return true;
    }

    /** One pass over the table reverting every expired hold. Each step
        touches one seat only, so the order of the visit does not matter;
        the ids are visited in ascending order. */
    method CleanupExpiredHolds(now: Time)
      requires Valid()
      modifies this
      ensures Valid()
      ensures seats == Sweep(old(seats), now)
    {
      ghost var before := seats;
      var i := 1;
      while i <= |seats|
        invariant 1 <= i <= |before| + 1
        invariant seats.Keys == before.Keys
        invariant forall k :: k in seats ==>
                    seats[k] == if k < i then ExpireHold(before[k], now) else before[k]
      {
        var seat := seats[i];
        if seat.status == Held && now > seat.holdExpiry {
          seats := seats[i := seat.(status := Available, userId := "")];
        }
        i := i + 1;
      }
      assert seats == Sweep(before, now);
    }

    /** Reports ids 1..size in ascending order, each with its status and
        owner. */
    method GetSeatStates() returns (infos: seq<SeatInfo>)
      requires Valid()
      ensures |infos| == |seats|
      ensures forall j :: 0 <= j < |infos| ==>
                j + 1 in seats && infos[j] == Info(seats[j + 1]) && infos[j].seatId == j + 1
    {
      infos := [];
      var i := 1;
      while i <= |seats|
        invariant 1 <= i <= |seats| + 1
        invariant |infos| == i - 1
        invariant forall j :: 0 <= j < |infos| ==>
                    j + 1 in seats && infos[j] == Info(seats[j + 1]) && infos[j].seatId == j + 1
      {
        if i in seats {
          infos := infos + [Info(seats[i])];
        }
        i := i + 1;
      }
    }
  }

  /** The repository's basic test, on a table of ten seats: a hold, a
      second hold refused, the holder's confirm, then a release that
      returns the seat to Available. */
  method BasicScenario(now: Time) returns (held: bool, held2: bool, confirmed: bool, states: seq<SeatInfo>)
    ensures held && !held2 && confirmed
    ensures |states| == 10 && states[0] == SeatInfo(1, Available, "")
  {
    var manager := new SeatManager(10);
    assert 1 in manager.seats && manager.seats[1] == NewSeat(1);
    held := manager.HoldSeat(1, "User1", 10, now);
    assert manager.seats[1] == Seat(1, Held, "User1", now + 10);
    held2 := manager.HoldSeat(1, "User2", 10, now);
    assert manager.seats[1] == Seat(1, Held, "User1", now + 10);
    confirmed := manager.ConfirmSeat(1, "User1", now);
    assert manager.seats[1].status == Sold;
    ghost var sold := manager.seats;
    var released := manager.ReleaseSeat(1);
    assert manager.seats == sold[1 := Release(sold[1]).seat];
    assert Info(manager.seats[1]) == SeatInfo(1, Available, "");
    assert |manager.seats| == 10;
    states := manager.GetSeatStates();
  }
}
