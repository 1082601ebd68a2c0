/** The fixed-window rate limiter when each request's Get..Set is one atomic step. */
module RateLimit {
  import opened Options
  import opened Decimal
  import opened RateLimitCodec

  // ---------- the ideal fixed-window counter ----------

  datatype Window = Idle | Open(count: int, expiry: int)
  datatype Decision = Admit | Reject(retryAfter: int)
  datatype Outcome = Outcome(window: Window, decision: Decision)

  /** One request: the clock as it is read at entry, inside the store's Get, at time.Until and inside the store's Set (a
      reading not taken repeats the one before), and whether the store has evicted the entry if it finds it expired. */
  datatype Visit = Visit(now: int, fetched: int, until: int, stored: int, evicted: bool)

  ghost predicate Ordered(v: Visit) {
    v.now <= v.fetched <= v.until <= v.stored
  }

  function Max(a: int, b: int): int {
    if a < b then b else a
  }

  /** Go's integer division by a positive number, and float-to-int conversion: both drop the fraction. */
  function Truncate(a: int, b: int): int
    requires b > 0
  {
    if a < 0 then -(-a / b) else a / b
  }

  /** Whole seconds of the Retry-After header for `remaining` nanoseconds. */
  function RetryAfter(remaining: int): int {
    Truncate(remaining, SECOND) + 1
  }

  function Fresh(now: int, window: int): Window {
    Open(1, TruncateMillis(now + window))
  }

  /** One request on the ideal counter, which forgets nothing. */
  function Step(w: Window, maxRequests: int, window: int, v: Visit): Outcome {
    if w.Idle? || v.now >= w.expiry then Outcome(Fresh(v.now, window), Admit)
    else if w.count >= maxRequests then Outcome(w, Reject(RetryAfter(w.expiry - v.until)))
    else Outcome(Open(w.count + 1, w.expiry), Admit)
  }

  // ---------- the counter as a store with deadlines keeps it ----------

  /** A stored window and the instant from which the store may evict it. */
  datatype Slot = Slot(window: Window, deadline: int)
  datatype Stepped = Stepped(slot: Slot, decision: Decision)

  const EMPTY: Slot := Slot(Idle, 0)

  /** What Get finds. */
  function Fetched(slot: Slot, v: Visit): Window {
    if v.fetched >= slot.deadline && v.evicted then Idle else slot.window
  }

  /** The deadline that an admitted request's Set gives: a whole window for a new one, else the rest of it. */
  function Deadline(w: Window, window: int, v: Visit): int {
    v.stored + if w.Open? && v.now < w.expiry && w.expiry - v.until > 0 then w.expiry - v.until else window
  }

  /** One request on the stored counter. */
  function SlotStep(slot: Slot, maxRequests: int, window: int, v: Visit): Stepped {
    var w := Fetched(slot, v);
    var o := Step(w, maxRequests, window, v);
    if o.decision.Reject? then Stepped(slot, o.decision)
    else Stepped(Slot(o.window, Deadline(w, window, v)), Admit)
  }

  /** The request read the clock inside the stored window, but its Get came past the deadline and found it evicted. */
  predicate Straddles(slot: Slot, v: Visit) {
    slot.window.Open? && v.evicted && v.now < slot.window.expiry && v.fetched >= slot.deadline
  }

  /** What the limiter writes: a counted request, and a deadline that is not before the window's expiry. */
  ghost predicate WellKept(slot: Slot) {
    slot.window.Open? ==> slot.window.count >= 1 && slot.window.expiry <= slot.deadline
  }

  lemma StepKeeps(slot: Slot, maxRequests: int, window: int, v: Visit)
    requires WellKept(slot) && Ordered(v) && window > 0
    ensures WellKept(SlotStep(slot, maxRequests, window, v).slot)
  {
  }

  /** How long an admitted request's Set keeps the entry: a counted one up to the same expiry as before, later only by
      the time from its reading of the clock to the Set, never by a window anew; any other for a whole window. */
  lemma EntryLife(slot: Slot, maxRequests: int, window: int, v: Visit)
    requires SlotStep(slot, maxRequests, window, v).decision.Admit?
    ensures var after := SlotStep(slot, maxRequests, window, v).slot;
            if slot.window.Open? && v.now < slot.window.expiry && !Straddles(slot, v) then
              && after.window == Open(slot.window.count + 1, slot.window.expiry)
              && after.deadline
                 == v.stored + if v.until < slot.window.expiry then slot.window.expiry - v.until else window
            else
              && after.window == Open(1, TruncateMillis(v.now + window))
              && after.deadline == v.stored + window
  {
  }

  /** One stored step is the ideal step, whatever the store does with expired entries, exactly unless the request
      straddles the deadline of the entry. */
  lemma StepAgreesIff(slot: Slot, maxRequests: int, window: int, v: Visit)
    requires WellKept(slot)
    ensures var stored := SlotStep(slot, maxRequests, window, v);
            Outcome(stored.slot.window, stored.decision) == Step(slot.window, maxRequests, window, v)
            <==> !Straddles(slot, v)
  {
  }

  // ---------- the limiter over a store of texts with deadlines ----------

  datatype Entry = Entry(value: string, deadline: int)

  class CacheStore {
    var entries: map<string, Entry>

    constructor ()
      ensures entries == map[]
    {
      entries := map[];
    }

    /** An entry is served until its deadline; after it, only while the store has not `evicted` it yet. */
    method Get(key: string, at: int, evicted: bool) returns (value: Option<string>)
      ensures key !in entries ==> value == None
      ensures key in entries && (at < entries[key].deadline || !evicted) ==> value == Some(entries[key].value)
      ensures key in entries && at >= entries[key].deadline && evicted ==> value == None
    {
      if key in entries && (at < entries[key].deadline || !evicted) {
        value := Some(entries[key].value);
      } else {
        value := None;
      }
    }

    method Set(key: string, value: string, ttl: int, at: int)
      modifies this
      ensures entries == old(entries)[key := Entry(value, at + ttl)]
    {
      entries := entries[key := Entry(value, at + ttl)];
    }
  }

  /** The window that a stored text stands for; missing and garbled texts stand for none. */
  function WindowOfText(text: Option<string>): Window {
    if text.None? then Idle
    else
      match DecodeRateLimit(text.value)
      case None => Idle
      case Some(c) => Open(c.count, c.expiry)
  }

  ghost function SlotOf(entries: map<string, Entry>, key: string): Slot {
    if key in entries then Slot(WindowOfText(Some(entries[key].value)), entries[key].deadline) else EMPTY
  }

  lemma AfterSet(entries: map<string, Entry>, key: string, count: int, expiry: int, deadline: int)
    requires InInt64(count) && InInt64(UnixMilli(expiry))
    ensures SlotOf(entries[key := Entry(EncodeRateLimit(count, expiry), deadline)], key)
         == Slot(Open(count, TruncateMillis(expiry)), deadline)
  {
    DecodeEncode(count, expiry);
  }

  /** The text limiter does what one request does to the stored counter, and leaves all other keys alone. */
  method RateLimitByKey(store: CacheStore, maxRequests: int, window: int, key: string, v: Visit)
    returns (decision: Decision)
    requires InInt64(maxRequests) && InInt64(UnixMilli(v.now + window))
    modifies store
    ensures Stepped(SlotOf(store.entries, key), decision)
         == SlotStep(SlotOf(old(store.entries), key), maxRequests, window, v)
    ensures decision.Reject? ==> store.entries == old(store.entries)
    ensures forall k :: k != key ==>
              (k in store.entries <==> k in old(store.entries)) &&
              (k in store.entries ==> store.entries[k] == old(store.entries[k]))
  {
    hide DecodeRateLimit, EncodeRateLimit;
    ghost var before := store.entries;
    AfterSet(before, key, 1, v.now + window, v.stored + window);
    DecodeNeedsBar("");
    var value := store.Get(key, v.fetched, v.evicted);
    if value.None? || value.value == "" {
      store.Set(key, EncodeRateLimit(1, v.now + window), window, v.stored);
      return Admit;
    }
    var counter := DecodeRateLimit(value.value);
    if counter.None? || v.now >= counter.value.expiry {
      store.Set(key, EncodeRateLimit(1, v.now + window), window, v.stored);
      return Admit;
    }
    var Counter(count, expiry) := counter.value;
    if count >= maxRequests {
      return Reject(RetryAfter(expiry - v.until));
    }
    var remaining := expiry - v.until;
    if remaining <= 0 {
      remaining := window;
    }
    AfterSet(before, key, count + 1, expiry, v.stored + remaining);
    store.Set(key, EncodeRateLimit(count + 1, expiry), remaining, v.stored);
    return Admit;
  }
}
