/** The time-window reads of `BagReader` (`read_messages_since`, `_until`
    and `_between`) and the time helpers `to_duration_sec` and the seconds
    split of `ns_to_iso`. Reading the bag itself is not modelled: the
    windowed reads take the result of `read_messages` for the topic and
    pass its error on unchanged. */
module Reader {
  import opened Errors
  import opened Seqs
  import opened Model

  // ---------------------------------------------------------------------
  // time windows

  function AtOrAfter(since: nat): RawMessage -> bool {
    (m: RawMessage) => m.timestamp >= since
  }

  function AtOrBefore(until: nat): RawMessage -> bool {
    (m: RawMessage) => m.timestamp <= until
  }

  function Within(since: nat, until: nat): RawMessage -> bool {
    (m: RawMessage) => m.timestamp >= since && m.timestamp <= until
  }

  /** The messages stamped at or after `since`, in their order. */
  function Since(ms: seq<RawMessage>, since: nat): (r: seq<RawMessage>)
    ensures forall i :: 0 <= i < |r| ==> r[i].timestamp >= since
  {
    Filter(ms, AtOrAfter(since))
  }

  /** The messages stamped at or before `until`, in their order. */
  function Until(ms: seq<RawMessage>, until: nat): (r: seq<RawMessage>)
    ensures forall i :: 0 <= i < |r| ==> r[i].timestamp <= until
  {
    Filter(ms, AtOrBefore(until))
  }

  /** The messages stamped within `[since, until]`, in their order. */
  function Between(ms: seq<RawMessage>, since: nat, until: nat): (r: seq<RawMessage>)
    ensures forall i :: 0 <= i < |r| ==> since <= r[i].timestamp <= until
  {
    Filter(ms, Within(since, until))
  }

  /** `read_messages_since`: the error of the read, or its messages at or
      after `since`. */
  function ReadMessagesSince(read: Result<seq<RawMessage>>, since: nat): (r: Result<seq<RawMessage>>)
    ensures r.Ok? <==> read.Ok?
    ensures read.Err? ==> r.error == read.error
    ensures r.Ok? ==> r.value == Since(read.value, since)
  {
    var ms :- read;
    Ok(Since(ms, since))
  }

  /** `read_messages_until`. */
  function ReadMessagesUntil(read: Result<seq<RawMessage>>, until: nat): (r: Result<seq<RawMessage>>)
    ensures r.Ok? <==> read.Ok?
    ensures read.Err? ==> r.error == read.error
    ensures r.Ok? ==> r.value == Until(read.value, until)
  {
    var ms :- read;
    Ok(Until(ms, until))
  }

  /** `read_messages_between`. */
  function ReadMessagesBetween(read: Result<seq<RawMessage>>, since: nat, until: nat): (r: Result<seq<RawMessage>>)
    ensures r.Ok? <==> read.Ok?
    ensures read.Err? ==> r.error == read.error
    ensures r.Ok? ==> r.value == Between(read.value, since, until)
  {
    var ms :- read;
    Ok(Between(ms, since, until))
  }

  /** A message is kept exactly when it was read and is stamped at or after
      `since`; the kept messages keep their order; filtering again keeps
      them all. */
  lemma {:induction false} SinceSpec(ms: seq<RawMessage>, since: nat, m: RawMessage)
    ensures m in Since(ms, since) <==> m in ms && m.timestamp >= since
    ensures IsSubsequence(Since(ms, since), ms)
    ensures Since(Since(ms, since), since) == Since(ms, since)
  {
    FilterMembership(ms, AtOrAfter(since), m);
    FilterIsSubsequence(ms, AtOrAfter(since));
    FilterIdempotent(ms, AtOrAfter(since));
  }

  lemma {:induction false} UntilSpec(ms: seq<RawMessage>, until: nat, m: RawMessage)
    ensures m in Until(ms, until) <==> m in ms && m.timestamp <= until
    ensures IsSubsequence(Until(ms, until), ms)
    ensures Until(Until(ms, until), until) == Until(ms, until)
  {
    FilterMembership(ms, AtOrBefore(until), m);
    FilterIsSubsequence(ms, AtOrBefore(until));
    FilterIdempotent(ms, AtOrBefore(until));
  }

  lemma {:induction false} BetweenSpec(ms: seq<RawMessage>, since: nat, until: nat, m: RawMessage)
    ensures m in Between(ms, since, until) <==> m in ms && since <= m.timestamp <= until
    ensures IsSubsequence(Between(ms, since, until), ms)
    ensures Between(Between(ms, since, until), since, until) == Between(ms, since, until)
  {
    FilterMembership(ms, Within(since, until), m);
    FilterIsSubsequence(ms, Within(since, until));
    FilterIdempotent(ms, Within(since, until));
  }

  /** The two-sided window is the two one-sided windows applied in either
      order. */
  lemma {:induction false} BetweenIsSinceThenUntil(ms: seq<RawMessage>, since: nat, until: nat)
    ensures Between(ms, since, until) == Until(Since(ms, since), until)
    ensures Between(ms, since, until) == Since(Until(ms, until), since)
  {
    FilterCompose(ms, AtOrAfter(since), AtOrBefore(until), Within(since, until));
    FilterCompose(ms, AtOrBefore(until), AtOrAfter(since), Within(since, until));
  }

  /** An inverted window holds nothing. */
  lemma {:induction false} BetweenInverted(ms: seq<RawMessage>, since: nat, until: nat)
    requires since > until
    ensures Between(ms, since, until) == []
  {
    FilterNone(ms, Within(since, until));
  }

  // ---------------------------------------------------------------------
  // time arithmetic

  const NsPerSec: nat := 1_000_000_000

  /** `to_duration_sec` before its final division by 10^9: the nanoseconds
      from `startNs` to `endNs`, or 0 when the end is not after the start. */
  function DurationNs(startNs: nat, endNs: nat): (d: nat)
    ensures d == 0 <==> endNs <= startNs
    ensures d > 0 ==> startNs + d == endNs
  {
    if endNs > startNs then endNs - startNs else 0
  }

  /** Shifting both ends by the same amount leaves the duration alone, and
      at most one of the two directions is non-zero. */
  lemma {:induction false} DurationShift(startNs: nat, endNs: nat, k: nat)
    ensures DurationNs(startNs + k, endNs + k) == DurationNs(startNs, endNs)
    ensures DurationNs(startNs, endNs) == 0 || DurationNs(endNs, startNs) == 0
  {
  }

  /** The documented example: one minute apart. */
  lemma {:induction false} DurationExample()
    ensures DurationNs(1630456800000000000, 1630456860000000000) == 60 * NsPerSec
  {
  }

  /** The whole seconds and the nanoseconds left over that `ns_to_iso`
      hands to `DateTime::from_timestamp`. */
  function NsSplit(ns: nat): (r: (nat, nat))
    ensures r.0 * NsPerSec + r.1 == ns && r.1 < NsPerSec
  {
    (ns / NsPerSec, ns % NsPerSec)
  }

  /** There is only one such split. */
  lemma {:induction false} NsSplitUnique(ns: nat, secs: nat, nsecs: nat)
    requires secs * NsPerSec + nsecs == ns && nsecs < NsPerSec
    ensures NsSplit(ns) == (secs, nsecs)
  {
  }

  /** For every `u64` input the casts `as i64` and `as u32` keep both parts
      intact. */
  lemma {:induction false} NsSplitFits(ns: nat)
    requires ns < 0x1_0000_0000_0000_0000
    ensures NsSplit(ns).0 < 0x8000_0000_0000_0000 && NsSplit(ns).1 < 0x1_0000_0000
  {
  }

  /** The documented example 1630456800000000000 ns: whole seconds, no
      nanoseconds. */
  lemma {:induction false} NsSplitExample()
    ensures NsSplit(1630456800000000000) == (1630456800, 0)
  {
    NsSplitUnique(1630456800000000000, 1630456800, 0);
  }
}
