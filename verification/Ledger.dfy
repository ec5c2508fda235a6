/** Acquire/release discipline of foreign resources, as a log of the calls made. */
module Ledger {

  /** A log grows to the right: the latest call is the outermost constructor. */
  datatype Log<R> =
    | Fresh
    | Acquired(before: Log<R>, what: R)
    | Released(before: Log<R>, what: R)

  /** How often `r` has been acquired and not yet released at the end of the log. */
  ghost function Held<R>(log: Log<R>, r: R): int {
    match log
    case Fresh => 0
    case Acquired(before, q) => Held(before, r) + if q == r then 1 else 0
    case Released(before, q) => Held(before, r) - if q == r then 1 else 0
  }

  /** Nothing is released that is not held at that moment: no double release, no early one. */
  ghost predicate Disciplined<R>(log: Log<R>) {
    match log
    case Fresh => true
    case Acquired(before, _) => Disciplined(before)
    case Released(before, r) => Disciplined(before) && Held(before, r) > 0
  }

  ghost function Acquisitions<R>(log: Log<R>, r: R): nat {
    match log
    case Fresh => 0
    case Acquired(before, q) => Acquisitions(before, r) + if q == r then 1 else 0
    case Released(before, _) => Acquisitions(before, r)
  }

  ghost function Releases<R>(log: Log<R>, r: R): nat {
    match log
    case Fresh => 0
    case Acquired(before, _) => Releases(before, r)
    case Released(before, q) => Releases(before, r) + if q == r then 1 else 0
  }

  ghost predicate PrefixOf<R>(p: Log<R>, log: Log<R>) {
    p == log || (!log.Fresh? && PrefixOf(p, log.before))
  }

  /**
   In a disciplined log, at every moment, each resource has been acquired exactly as often as it
   has been released or is still held; so one that is not held at the end was released once per
   acquisition, and never before it.
   */
  lemma {:induction false} Conservation<R>(log: Log<R>, p: Log<R>, r: R)
    requires Disciplined(log) && PrefixOf(p, log)
    ensures Acquisitions(p, r) == Releases(p, r) + Held(p, r) && Held(p, r) >= 0
  {
    if p == log {
      if !log.Fresh? { Conservation(log.before, log.before, r); }
    } else {
      Conservation(log.before, p, r);
    }
  }

  lemma {:induction false} PrefixTrans<R>(p: Log<R>, q: Log<R>, log: Log<R>)
    requires PrefixOf(p, q) && PrefixOf(q, log)
    ensures PrefixOf(p, log)
  {
    if q != log { PrefixTrans(p, q, log.before); }
  }

  /** What was acquired once stays in the books. */
  lemma {:induction false} PrefixCounts<R>(p: Log<R>, log: Log<R>, r: R)
    requires PrefixOf(p, log)
    ensures Acquisitions(p, r) <= Acquisitions(log, r)
  {
    if p != log { PrefixCounts(p, log.before, r); }
  }
}
