/** The per-seat record shared by the lock-based store: a seat's identity,
    its place in the Available -> Held -> Sold state machine, its owner and
    the deadline of its current hold. */
module Seats {

  /** An instant of the monotonic clock, counted in whole seconds. */
  type Time = int

  /** A value-initialised time point: the clock's epoch. */
  const DefaultTime: Time := 0

  /** The three states a seat can be in. */
  datatype SeatStatus = Available | Held | Sold

  /** One seat. `userId` is the owner's name (empty when nobody owns the
      seat); `holdExpiry` only means something while the seat is Held. */
  datatype Seat = Seat(seatId: int, status: SeatStatus, userId: string, holdExpiry: Time)

  /** "Available implies nobody owns the seat." */
  predicate OwnerInvariant(s: Seat)
  {
    s.status == Available ==> s.userId == ""
  }

  /** The default constructor: seat 0, Available, no owner, epoch deadline. */
  function DefaultSeat(): (s: Seat)
    ensures s.seatId == 0 && s.status == Available && s.userId == ""
    ensures s.holdExpiry == DefaultTime
    ensures OwnerInvariant(s)
  {
    Seat(0, Available, "", DefaultTime)
  }

  /** The constructor taking an id: that id, Available, no owner, epoch deadline. */
  function NewSeat(id: int): (s: Seat)
    ensures s.seatId == id && s.status == Available && s.userId == ""
    ensures s.holdExpiry == DefaultTime
    ensures OwnerInvariant(s)
  {
    Seat(id, Available, "", DefaultTime)
  }

  /** Every status is one of exactly three distinct values. */
  lemma ThreeStatuses(st: SeatStatus)
    ensures st == Available || st == Held || st == Sold
    ensures Available != Held && Held != Sold && Available != Sold
  {
  }
}
