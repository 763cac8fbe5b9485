/** The lock-free store: one atomic 32-bit word per seat index 0..N. The
    status sits in bits 0-1 and the holder's numeric id in the bits above;
    no deadline is packed, so holds never expire here. Every transition is
    a load/check/compare-and-swap retry loop; with a single caller the first
    compare-and-swap succeeds, so each loop is modelled as its guard
    followed by one compare-and-swap. */
module LockFree {

  /** The C++ `int`. */
  type Int32 = x: int | -0x8000_0000 <= x <= 0x7FFF_FFFF

  const Int32Max: int := 0x7FFF_FFFF

  /** Holders whose value shifted left by two still fits a non-negative
      `int`: 0 <= userId < 2^29. */
  const HolderLimit: int := 0x2000_0000

  /** The status codes stored in bits 0-1. */
  datatype AtomicStatus = Available | Held | Sold
  {
    function Code(): (c: int)
      ensures 0 <= c <= 2
    {
      match this
      case Available => 0
      case Held => 1
      case Sold => 2
    }
  }

  /** The cast from a status code back to the enumeration. */
  function FromCode(c: int): (s: AtomicStatus)
    requires 0 <= c <= 2
    ensures s.Code() == c
  {
    if c == 0 then Available else if c == 1 then Held else Sold
  }

  /** `w & 3`: on two's-complement words this is the non-negative remainder
      modulo 4. */
  function StatusBits(w: int): (r: int)
    ensures 0 <= r < 4
    ensures w == 4 * Holder(w) + r
  {
    w % 4
  }

  /** `w >> 2`: the arithmetic shift is division by 4 rounded down. */
  function Holder(w: int): (r: int)
    ensures 0 <= w ==> 0 <= r <= w
    ensures 4 * r <= w < 4 * r + 4
  {
    w / 4
  }

  /** `(userId << 2) | code`: for a holder below 2^29 the shift is
      multiplication by 4 and OR-ing a code below 4 into the two clear low
      bits adds it. */
  function Encode(status: AtomicStatus, userId: int): (w: int)
    requires 0 <= userId < HolderLimit
    ensures 0 <= w <= Int32Max
    ensures StatusBits(w) == status.Code() && Holder(w) == userId
  {
    userId * 4 + status.Code()
  }

  /** The words the store can hold: non-negative 32-bit values with status
      code 0, 1 or 2, and an Available word is exactly 0 (no holder). */
  predicate WellFormed(w: int)
  {
    0 <= w <= Int32Max && StatusBits(w) != 3 && (StatusBits(w) == 0 ==> w == 0)
  }

  function StatusOf(w: int): AtomicStatus
    requires WellFormed(w)
  {
    FromCode(StatusBits(w))
  }

  /** Decoding a well-formed word and encoding the result gives the word
      back, and the holder always fits the encoding. */
  lemma DecodeEncode(w: int)
    requires WellFormed(w)
    ensures 0 <= Holder(w) < HolderLimit
    ensures Encode(StatusOf(w), Holder(w)) == w
  {
  }

  /** Every word the store writes is well formed: a Held or Sold word with
      any holder that fits, or the Available word with holder 0. */
  lemma EncodedWordWellFormed(status: AtomicStatus, userId: int)
    requires 0 <= userId < HolderLimit
    requires status == Available ==> userId == 0
    ensures WellFormed(Encode(status, userId))
  {
  }

  /** Encoding then decoding (`w & 3` cast back to a status, `w >> 2`)
      gives back the status and the holder. */
  lemma EncodeDecode(status: AtomicStatus, userId: int)
    requires 0 <= userId < HolderLimit
    ensures FromCode(StatusBits(Encode(status, userId))) == status
    ensures Holder(Encode(status, userId)) == userId
  {
  }

  /** The result of one call on one word: what it returns and the word
      afterwards. */
  datatype Transition = Transition(ok: bool, word: int)

  /** holdSeat's loop: only a word with status bits 0 is replaced, by
      (userId << 2) | 1; there is no expiry check and the duration is not
      stored. */
  function HoldWord(w: int, userId: int): (r: Transition)
    requires 0 <= userId < HolderLimit
    ensures WellFormed(w) ==> WellFormed(r.word)
    ensures WellFormed(w) ==> (r.ok <==> StatusOf(w) == Available && StatusOf(r.word) == Held)
    ensures r.ok ==> Holder(r.word) == userId
    ensures !r.ok ==> r.word == w
  {
    if StatusBits(w) != 0 then Transition(false, w)
    else Transition(true, Encode(Held, userId))
  }

  /** confirmSeat's loop: only a Held word whose holder is the caller is
      replaced, by a Sold word with the same holder. */
  function ConfirmWord(w: int, userId: int): (r: Transition)
    requires 0 <= w <= Int32Max
    ensures WellFormed(w) ==> WellFormed(r.word)
    ensures WellFormed(w) ==> (r.ok <==> StatusOf(w) == Held && StatusOf(r.word) == Sold)
    ensures r.ok <==> StatusBits(w) == 1 && Holder(w) == userId
    ensures r.ok ==> Holder(r.word) == Holder(w)
    ensures !r.ok ==> r.word == w
  {
    if StatusBits(w) != 1 then Transition(false, w)
    else if Holder(w) != userId then Transition(false, w)
    else Transition(true, Encode(Sold, userId))
  }

  /** releaseSeat's loop: a Sold word is left alone and the call fails;
      any other word becomes 0. */
  function ReleaseWord(w: int): (r: Transition)
    ensures WellFormed(w) ==> WellFormed(r.word)
    ensures r.ok <==> StatusBits(w) != 2
    ensures r.ok ==> r.word == 0
    ensures !r.ok ==> r.word == w
  {
    if StatusBits(w) == 2 then Transition(false, w) else Transition(true, 0)
  }

  /** Holds exclude each other: once a hold has succeeded, every later
      hold fails and leaves the word as it is. */
  lemma HoldWordExcludes(w: int, a: int, b: int)
    requires WellFormed(w) && 0 <= a < HolderLimit && 0 <= b < HolderLimit
    requires HoldWord(w, a).ok
    ensures !HoldWord(HoldWord(w, a).word, b).ok
    ensures HoldWord(HoldWord(w, a).word, b).word == HoldWord(w, a).word
  {
  }

  /** Releasing an Available seat succeeds and changes nothing. */
  lemma ReleaseAvailableIdempotent(w: int)
    requires WellFormed(w) && StatusOf(w) == Available
    ensures ReleaseWord(w) == Transition(true, w)
  {
  }

  /** The three calls on one word, as values, so runs of them can be stated. */
  datatype WordOp = HoldOp(userId: int) | ConfirmOp(userId: int) | ReleaseOp

  predicate ValidOp(op: WordOp)
  {
    op.HoldOp? ==> 0 <= op.userId < HolderLimit
  }

  function ApplyWord(w: int, op: WordOp): (r: Transition)
    requires WellFormed(w) && ValidOp(op)
    ensures WellFormed(r.word)
  {
    match op
    case HoldOp(u) => HoldWord(w, u)
    case ConfirmOp(u) => ConfirmWord(w, u)
    case ReleaseOp => ReleaseWord(w)
  }

  /** Every call makes the one transition it is for, or fails and leaves
      the word as it was. */
  lemma OneLegalTransition(w: int, op: WordOp)
    requires WellFormed(w) && ValidOp(op)
    ensures var r := ApplyWord(w, op);
            (!r.ok && r.word == w) ||
            (r.ok && op.HoldOp? && StatusOf(w) == Available && StatusOf(r.word) == Held) ||
            (r.ok && op.ConfirmOp? && StatusOf(w) == Held && StatusOf(r.word) == Sold) ||
            (r.ok && op.ReleaseOp? && StatusOf(w) != Sold && r.word == 0)
  {
  }

  /** The word after a sequence of calls; it stays well formed throughout. */
  function RunWord(w: int, ops: seq<WordOp>): (r: int)
    requires WellFormed(w)
    requires forall i :: 0 <= i < |ops| ==> ValidOp(ops[i])
    ensures WellFormed(r)
    decreases |ops|
  {
    if ops == [] then w else RunWord(ApplyWord(w, ops[0]).word, ops[1..])
  }

  /** Sold is absorbing: once a word is Sold, no sequence of calls changes
      it. */
  lemma {:induction false} SoldIsAbsorbing(w: int, ops: seq<WordOp>)
    requires WellFormed(w) && StatusOf(w) == Sold
    requires forall i :: 0 <= i < |ops| ==> ValidOp(ops[i])
    ensures RunWord(w, ops) == w
    decreases |ops|
  {
    if ops != [] {
      assert ApplyWord(w, ops[0]).word == w;
      SoldIsAbsorbing(w, ops[1..]);
    }
  }

  /** `seatId >= seats.size()` compares after converting the `int` to the
      64-bit unsigned `size_t`. */
  function ToSizeT(x: int): (r: nat)
    ensures r < 0x1_0000_0000_0000_0000
    ensures 0 <= x < 0x1_0000_0000_0000_0000 ==> r == x
    ensures -0x1_0000_0000_0000_0000 <= x < 0 ==> r == x + 0x1_0000_0000_0000_0000
  {
    x % 0x1_0000_0000_0000_0000
  }

  /** The bounds check of every call: a negative id wraps to a huge value
      and is refused, and index 0 is accepted. */
  function Admits(seatId: Int32, size: int): (b: bool)
    requires 0 <= size <= Int32Max + 1
    ensures b <==> 0 <= seatId < size
  {
    !(ToSizeT(seatId) >= size)
  }

  /** One entry of a snapshot: (id, status, numeric holder). */
  datatype SeatSnapshot = SeatSnapshot(id: int, status: AtomicStatus, userId: int)

  /** The lock-free seat table. The array stands for the vector of atomic
      words; the unused per-seat userId and holdExpiry fields are not
      modelled. */
  class AtomicSeatManager {
    var seats: array<int>

    ghost predicate Valid()
      reads this, seats
    {
      seats.Length <= Int32Max + 1 &&
      forall i :: 0 <= i < seats.Length ==> WellFormed(seats[i])
    }

    /** Allocates totalSeats + 1 words, all 0 (Available, holder 0). A
        count below -1 would make the vector's size wrap and its
        allocation throw, and totalSeats + 1 must not overflow. */
    constructor (totalSeats: Int32)
      requires -1 <= totalSeats < Int32Max
      ensures Valid() && fresh(seats)
      ensures seats.Length == totalSeats + 1
      ensures forall i :: 0 <= i < seats.Length ==> seats[i] == 0
    {
      var words := new int[totalSeats + 1];
      var i := 0;
      while i < words.Length
        invariant 0 <= i <= words.Length
        invariant forall j :: 0 <= j < i ==> words[j] == 0
      {
        words[i] := 0;
        i := i + 1;
      }
      seats := words;
    }

    /** `compare_exchange` on word i: writes `desired` only when the word
        still equals `expected`. */
    method CompareExchange(i: int, expected: int, desired: int) returns (swapped: bool)
      requires 0 <= i < seats.Length
      modifies seats
      ensures swapped == (old(seats[i]) == expected)
      ensures seats[..] == if swapped then old(seats[..])[i := desired] else old(seats[..])
    {
      swapped := seats[i] == expected;
      if swapped {
        seats[i] := desired;
      }
    }

    method HoldSeat(seatId: Int32, userId: Int32, durationMs: Int32) returns (ok: bool)
      requires Valid()
      requires 0 <= userId < HolderLimit
      modifies seats
      ensures Valid()
      ensures !Admits(seatId, seats.Length) ==> !ok && seats[..] == old(seats[..])
      ensures Admits(seatId, seats.Length) ==>
                var r := HoldWord(old(seats[seatId]), userId);
                ok == r.ok && seats[..] == old(seats[..])[seatId := r.word]
    {
      if !Admits(seatId, seats.Length) {
        return false;
      }
      var current := seats[seatId];
      if StatusBits(current) != 0 {
        return false;
      }
      var desired := Encode(Held, userId);
      // With no competing writer the word still holds `current`, so the
      // first compare-and-swap succeeds and the retry loop ends.
      ok := CompareExchange(seatId, current, desired);
    }

    method ConfirmSeat(seatId: Int32, userId: Int32) returns (ok: bool)
      requires Valid()
      modifies seats
      ensures Valid()
      ensures !Admits(seatId, seats.Length) ==> !ok && seats[..] == old(seats[..])
      ensures Admits(seatId, seats.Length) ==>
                var r := ConfirmWord(old(seats[seatId]), userId);
                ok == r.ok && seats[..] == old(seats[..])[seatId := r.word]
    {
      if !Admits(seatId, seats.Length) {
        return false;
      }
      var current := seats[seatId];
      if StatusBits(current) != 1 {
        return false;
      }
      var holder := Holder(current);
      if holder != userId {
        return false;
      }
      var desired := Encode(Sold, userId);
      ok := CompareExchange(seatId, current, desired);
    }

    method ReleaseSeat(seatId: Int32) returns (ok: bool)
      requires Valid()
      modifies seats
      ensures Valid()
      ensures !Admits(seatId, seats.Length) ==> !ok && seats[..] == old(seats[..])
      ensures Admits(seatId, seats.Length) ==>
                var r := ReleaseWord(old(seats[seatId]));
                ok == r.ok && seats[..] == old(seats[..])[seatId := r.word]
    {
      if !Admits(seatId, seats.Length) {
        return false;
      }
      var current := seats[seatId];
      var status := StatusBits(current);
      if status == 2 {
        return false;
      }
      ok := CompareExchange(seatId, current, 0);
    }

    /** Lists indices 1..size-1 in ascending order with the decoded status
        and holder; index 0 is never reported. */
    method GetSnapshot() returns (snap: seq<SeatSnapshot>)
      requires Valid()
      ensures |snap| == if seats.Length == 0 then 0 else seats.Length - 1
      ensures forall j :: 0 <= j < |snap| ==>
                snap[j] == SeatSnapshot(j + 1, StatusOf(seats[j + 1]), Holder(seats[j + 1]))
      ensures forall j :: 0 <= j < |snap| ==> snap[j].status == Available ==> snap[j].userId == 0
    {
      snap := [];
      var i := 1;
      while i < seats.Length
        invariant 1 <= i <= if seats.Length == 0 then 1 else seats.Length
        invariant |snap| == i - 1
        invariant forall j :: 0 <= j < |snap| ==>
                    snap[j] == SeatSnapshot(j + 1, StatusOf(seats[j + 1]), Holder(seats[j + 1]))
      {
        var val := seats[i];
        var statusInt := StatusBits(val);
        var uId := Holder(val);
        snap := snap + [SeatSnapshot(i, FromCode(statusInt), uId)];
        i := i + 1;
      }
    }
  }

  /** The end-to-end run on a pool of one seat: a hold, a second hold
      refused, the holder's confirm, a release refused because the seat is
      Sold, and a snapshot showing the sale. */
  method SoldSeatScenario() returns (held: bool, held2: bool, confirmed: bool, released: bool, snap: seq<SeatSnapshot>)
    ensures held && !held2 && confirmed && !released
    ensures snap == [SeatSnapshot(1, Sold, 7)]
  {
    var manager := new AtomicSeatManager(1);
    held := manager.HoldSeat(1, 7, 10000);
    held2 := manager.HoldSeat(1, 8, 10000);
    confirmed := manager.ConfirmSeat(1, 7);
    released := manager.ReleaseSeat(1);
    snap := manager.GetSnapshot();
  }
}
