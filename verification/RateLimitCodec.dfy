/** The text form `count|expiryUnixMillis` in which the rate limiter stores one window. */
module RateLimitCodec {
  import opened Options
  import opened Decimal

  // Instants and durations are integer nanoseconds, as in Go's time package.
  const MILLISECOND: int := 1_000_000
  const SECOND: int := 1_000_000_000

  datatype Counter = Counter(count: int, expiry: int)

  /** time.Time.UnixMilli: whole milliseconds, rounded towards the past. */
  function UnixMilli(t: int): int {
    t / MILLISECOND
  }

  /** The instant that survives the trip through UnixMilli and time.UnixMilli. */
  function TruncateMillis(t: int): (r: int)
    ensures t - MILLISECOND < r <= t && r % MILLISECOND == 0
  {
    UnixMilli(t) * MILLISECOND
  }

  function EncodeRateLimit(count: int, expiry: int): string {
    FormatInt(count) + "|" + FormatInt(UnixMilli(expiry))
  }

  /** Index of the first `c` in `s`, or |s| when there is none. */
  function IndexOf(s: string, c: char): (i: nat)
    ensures i <= |s| && c !in s[..i] && (i < |s| ==> s[i] == c)
  {
    if s == "" || s[0] == c then 0
    else
      assert s == [s[0]] + s[1..];
      1 + IndexOf(s[1..], c)
  }

  function DecodeRateLimit(s: string): (r: Option<Counter>)
    ensures r.Some? ==>
      InInt64(r.value.count) && InInt64(UnixMilli(r.value.expiry)) && TruncateMillis(r.value.expiry) == r.value.expiry
  {
    var bar := IndexOf(s, '|');
    if bar == |s| then None
    else
      var count := ParseInt(s[..bar]);
      if count.None? then None
      else
        var millis := ParseInt(s[bar + 1..]);
        if millis.None? then None
        else Some(Counter(count.value, millis.value * MILLISECOND))
  }

  lemma {:induction false} IndexOfUnique(s: string, c: char, i: nat)
    requires i < |s| && s[i] == c && c !in s[..i]
    ensures IndexOf(s, c) == i
  {
  }

  /** The round trip: the count comes back, and the expiry truncated to milliseconds. */
  lemma DecodeEncode(count: int, expiry: int)
    requires InInt64(count) && InInt64(UnixMilli(expiry))
    ensures DecodeRateLimit(EncodeRateLimit(count, expiry)) == Some(Counter(count, TruncateMillis(expiry)))
    ensures TruncateMillis(expiry) == expiry - expiry % 1_000_000
  {
    var left, right := FormatInt(count), FormatInt(UnixMilli(expiry));
    var s := EncodeRateLimit(count, expiry);
    FormatChars(count);
    ParseFormat(count);
    ParseFormat(UnixMilli(expiry));
    assert s[..|left|] == left && s[|left| + 1..] == right;
    IndexOfUnique(s, '|', |left|);
  }

  /** The text form, digit by digit, for a count and an expiry on either side of zero. */
  lemma EncodeExamples()
    ensures EncodeRateLimit(3, 1_999_999) == "3|1" && EncodeRateLimit(-2, -1) == "-2|-1"
  {
  }

  /** `s` is two in-range decimals around its first bar. */
  ghost predicate IsPair(s: string, left: string, right: string, count: int, millis: int) {
    && s == left + "|" + right
    && '|' !in left
    && ParseInt(left) == Some(count)
    && ParseInt(right) == Some(millis)
  }

  lemma DecodePair(s: string, left: string, right: string, count: int, millis: int)
    requires IsPair(s, left, right, count, millis)
    ensures DecodeRateLimit(s) == Some(Counter(count, millis * MILLISECOND))
  {
    assert s[..|left|] == left && s[|left| + 1..] == right;
    IndexOfUnique(s, '|', |left|);
  }

  /** Exactly which strings decode, and to what. */
  lemma DecodeShape(s: string, count: int, millis: int)
    ensures DecodeRateLimit(s) == Some(Counter(count, millis * MILLISECOND))
      <==> exists left, right :: IsPair(s, left, right, count, millis)
  {
    if DecodeRateLimit(s) == Some(Counter(count, millis * MILLISECOND)) {
      var bar := IndexOf(s, '|');
      assert s == s[..bar] + "|" + s[bar + 1..];
      assert IsPair(s, s[..bar], s[bar + 1..], count, millis);
    }
    if left, right :| IsPair(s, left, right, count, millis) {
      DecodePair(s, left, right, count, millis);
    }
  }

  /** A value without a bar, such as the older bare counter, never decodes. */
  lemma DecodeNeedsBar(s: string)
    requires '|' !in s
    ensures DecodeRateLimit(s) == None
  {
  }
}
