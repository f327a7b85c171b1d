/** The status of a poll, derived from its deadline and the instant of the
    question; it is never stored. */
module Status {

  /** The two statuses getStatus reports. */
  datatype PollStatus = PollOpened | PollClosed

  /** The decision of getStatus: closed only when `now` is strictly after
      the deadline, so the deadline instant itself is still open. */
  function StatusAt(endAt: int, now: int): PollStatus
  {
    if now > endAt then PollClosed else PollOpened
  }

  /** The deadline instant belongs to the open period. */
  lemma OpenAtDeadline(endAt: int)
    ensures StatusAt(endAt, endAt) == PollOpened
  {
  }

  /** A poll closes once and for all: closed at one instant, it is closed
      at every later one; open at one instant, it was open at every earlier
      one. */
  lemma ClosingIsPermanent(endAt: int, t1: int, t2: int)
    requires t1 <= t2
    ensures StatusAt(endAt, t1) == PollClosed ==> StatusAt(endAt, t2) == PollClosed
    ensures StatusAt(endAt, t2) == PollOpened ==> StatusAt(endAt, t1) == PollOpened
  {
  }
}
