/** Polling a mailbox for a verification code under byte budgets and a deadline. */
module PollBudget {
  import opened Wrappers
  import Utf8Budget

  const MAX_MESSAGE_BODY_BYTES := 64 * 1024
  const MAX_SCAN_BODY_BYTES := 512 * 1024
  const MAX_REQUEST_BODY_BYTES := 1024 * 1024

  datatype Message = Message(sender: string, subject: string, recipients: set<string>, body: string)

  /** What filters and matcher make of a message, given its body cut to size. */
  type Matcher = (Message, string) -> Option<string>

  ghost function Body(m: Message): string {
    Utf8Budget.Cut(m.body, MAX_MESSAGE_BODY_BYTES)
  }

  /** A body of up to 64 KiB is read as a whole, a longer one up to that size. */
  lemma BodyIsCutAt64K(m: Message)
    ensures |Utf8Budget.Encode(m.body)| <= 65_536 ==> Body(m) == m.body
    ensures |Utf8Budget.Encode(m.body)| > 65_536 ==> 65_532 <= |Utf8Budget.Encode(Body(m))| <= 65_536
  {
    Utf8Budget.CutFits(m.body, MAX_MESSAGE_BODY_BYTES);
  }

  ghost function Size(m: Message): (n: nat)
    ensures n <= 65_536
  {
    Utf8Budget.CutFits(m.body, MAX_MESSAGE_BODY_BYTES);
    |Utf8Budget.Encode(Body(m))|
  }

  ghost function Code(m: Message, matcher: Matcher): Option<string> {
    matcher(m, Body(m))
  }

  ghost function Total(messages: seq<Message>, n: nat): nat
    requires n <= |messages|
  {
    if n == 0 then 0 else Total(messages, n - 1) + Size(messages[n - 1])
  }

  function ScanBudget(remaining: int): (n: nat)
    ensures n <= 524_288 && (remaining > 0 ==> n <= remaining)
    ensures n == 524_288 || n == remaining || (n == 0 && remaining < 0)
  {
    if remaining <= 0 then 0 else if remaining < MAX_SCAN_BODY_BYTES then remaining else MAX_SCAN_BODY_BYTES
  }

  datatype Scanned = Scanned(code: Option<string>, bytes: nat, exhausted: bool)

  /** Exactly the first `n` messages fit the budget together. */
  ghost predicate StopsBefore(messages: seq<Message>, budget: nat, n: nat) {
    n <= |messages| && Total(messages, n) <= budget && (n < |messages| ==> Total(messages, n + 1) > budget)
  }

  ghost predicate NoCodeIn(messages: seq<Message>, matcher: Matcher, n: nat)
    requires n <= |messages|
  {
    forall i :: 0 <= i < n ==> Code(messages[i], matcher).None?
  }

  /**
   * What one scan has to answer: the code of the first matching message among those that fit the budget
   * together, and the bytes read up to there. Without a code it reports whether the request is over.
   */
  ghost predicate Scans(messages: seq<Message>, matcher: Matcher, remaining: int, r: Scanned) {
    var budget := ScanBudget(remaining);
    if r.code.Some? then
      exists i :: 0 <= i < |messages| && ReadsUpTo(messages, matcher, i, r) && r.bytes <= budget && !r.exhausted
    else
      exists n: nat :: StopsBefore(messages, budget, n) && NoCodeIn(messages, matcher, n) && r.bytes == Total(messages, n)
        && (r.exhausted <==> if n < |messages|
                             then remaining - r.bytes <= Size(messages[n]) || r.bytes >= MAX_SCAN_BODY_BYTES
                             else remaining <= 0)
  }

  ghost predicate ReadsUpTo(messages: seq<Message>, matcher: Matcher, i: nat, r: Scanned)
    requires i < |messages|
  {
    NoCodeIn(messages, matcher, i) && r.code == Code(messages[i], matcher) && r.bytes == Total(messages, i + 1)
  }

  lemma {:induction false} TotalGrows(messages: seq<Message>, i: nat, j: nat)
    requires i <= j <= |messages|
    ensures Total(messages, i) <= Total(messages, j)
  {
    hide Size;
    if i < j {
      TotalGrows(messages, i, j - 1);
    }
  }

  lemma StopsOnce(messages: seq<Message>, budget: nat, n: nat, m: nat)
    requires StopsBefore(messages, budget, n) && m < |messages| && Total(messages, m + 1) <= budget
    ensures m < n
  {
    hide Total;
    if n <= m {
      TotalGrows(messages, n + 1, m + 1);
    }
  }

  /** The answer of a scan is determined by its inputs. */
  lemma ScanIsUnique(messages: seq<Message>, matcher: Matcher, remaining: int, r: Scanned, q: Scanned)
    requires Scans(messages, matcher, remaining, r) && Scans(messages, matcher, remaining, q)
    ensures r == q
  {
    hide Total, Code, Size, StopsBefore;
    var budget := ScanBudget(remaining);
    if r.code.Some? && q.code.Some? {
    } else if r.code.None? && q.code.None? {
      forall n: nat, m: nat | StopsBefore(messages, budget, n) && StopsBefore(messages, budget, m) ensures n == m {
        StopsAtOnePlace(messages, budget, n, m);
      }
    } else {
      var found := if r.code.Some? then r else q;
      forall n: nat, i: nat | StopsBefore(messages, budget, n) && i < |messages| && ReadsUpTo(messages, matcher, i, found)
        ensures i < n
      {
        StopsOnce(messages, budget, n, i);
      }
    }
  }

  lemma StopsAtOnePlace(messages: seq<Message>, budget: nat, n: nat, m: nat)
    requires StopsBefore(messages, budget, n) && StopsBefore(messages, budget, m)
    ensures n == m
  {
    hide Total;
    if n < m {
      StopsOnce(messages, budget, n, m - 1);
    } else if m < n {
      StopsOnce(messages, budget, m, n - 1);
    }
  }

  /**
   * A scan that gives up without ending the request has read more than 448 KiB and left room in the request for
   * the message it stopped at.
   */
  lemma UnfinishedScanIsLarge(messages: seq<Message>, matcher: Matcher, remaining: int, r: Scanned)
    requires Scans(messages, matcher, remaining, r) && r.code.None? && !r.exhausted
    ensures r.bytes == Total(messages, |messages|) || 458_752 < r.bytes < remaining
  {
    hide Size, Total, Code;
    var n: nat :| StopsBefore(messages, ScanBudget(remaining), n) && r.bytes == Total(messages, n)
        && (r.exhausted <==> if n < |messages|
                             then remaining - r.bytes <= Size(messages[n]) || r.bytes >= MAX_SCAN_BODY_BYTES
                             else remaining <= 0);
    if n < |messages| {
      NextTotal(messages, n);
    }
  }

  lemma TotalOfNone(messages: seq<Message>)
    ensures Total(messages, 0) == 0
  {
  }

  lemma NextTotal(messages: seq<Message>, n: nat)
    requires n < |messages|
    ensures Total(messages, n + 1) == Total(messages, n) + Size(messages[n])
    ensures Size(messages[n]) <= MAX_MESSAGE_BODY_BYTES
  {
  }

  method FindCodeInMessages(messages: seq<Message>, matcher: Matcher, remaining: int) returns (r: Scanned)
    ensures Scans(messages, matcher, remaining, r)
  {
    hide Size, Body, Total;
    TotalOfNone(messages);
    var bytes := 0;
    var budget := ScanBudget(remaining);
    var exhausted := remaining <= 0;
    for i := 0 to |messages|
      invariant bytes == Total(messages, i) <= budget
      invariant NoCodeIn(messages, matcher, i)
    {
      var body := Utf8Budget.TruncateTextToByteBudget(messages[i].body, MAX_MESSAGE_BODY_BYTES);
      var length := |Utf8Budget.Encode(body)|;
      BodyIs(messages[i]);
      NextTotal(messages, i);
      if bytes + length > budget {
        exhausted := remaining - bytes <= length || bytes >= MAX_SCAN_BODY_BYTES;
        assert StopsBefore(messages, budget, i);
        return Scanned(None, bytes, exhausted);
      }
      bytes := bytes + length;
      var code := matcher(messages[i], body);
      if code.Some? {
        r := Scanned(code, bytes, false);
        assert ReadsUpTo(messages, matcher, i, r);
        return;
      }
    }
    assert StopsBefore(messages, budget, |messages|);
    return Scanned(None, bytes, exhausted);
  }

  lemma BodyIs(m: Message)
    ensures Body(m) == Utf8Budget.Cut(m.body, MAX_MESSAGE_BODY_BYTES)
    ensures Size(m) == |Utf8Budget.Encode(Utf8Budget.Cut(m.body, MAX_MESSAGE_BODY_BYTES))|
  {
  }

  lemma {:induction false} ScanExists(messages: seq<Message>, matcher: Matcher, remaining: int, i: nat)
    requires i <= |messages| && Total(messages, i) <= ScanBudget(remaining) && NoCodeIn(messages, matcher, i)
    ensures exists r :: Scans(messages, matcher, remaining, r)
    decreases |messages| - i
  {
    hide Total, Code, Size;
    var budget := ScanBudget(remaining);
    if i == |messages| || Total(messages, i + 1) > budget {
      assert StopsBefore(messages, budget, i);
      var bytes := Total(messages, i);
      var exhausted := if i < |messages| then remaining - bytes <= Size(messages[i]) || bytes >= MAX_SCAN_BODY_BYTES
                       else remaining <= 0;
      assert Scans(messages, matcher, remaining, Scanned(None, bytes, exhausted));
    } else if Code(messages[i], matcher).Some? {
      var r := Scanned(Code(messages[i], matcher), Total(messages, i + 1), false);
      assert ReadsUpTo(messages, matcher, i, r);
      assert Scans(messages, matcher, remaining, r);
    } else {
      ScanExists(messages, matcher, remaining, i + 1);
    }
  }

  /** The one possible answer of a scan. */
  ghost function Answer(messages: seq<Message>, matcher: Matcher, remaining: int): (r: Scanned)
    ensures Scans(messages, matcher, remaining, r)
    ensures r.bytes <= ScanBudget(remaining)
  {
    TotalOfNone(messages);
    ScanExists(messages, matcher, remaining, 0);
    var r :| Scans(messages, matcher, remaining, r);
    r
  }

  // ------------------------------------------------------------------------------- the polling request

  /** Microseconds. */
  type Time = int

  const SECOND := 1_000_000

  datatype Capability = Unknown | Imap | Graph

  datatype Channel = ImapChannel | GraphChannel

  function ChannelOrder(capability: Capability): seq<Channel> {
    match capability
    case Imap => [ImapChannel]
    case Graph => [GraphChannel]
    case Unknown => [ImapChannel, GraphChannel]
  }

  datatype Reading = Unreadable | Listed(messages: seq<Message>)

  /**
   * One polling request and everything outside it: what the inbox shows on each attempt and channel, what the
   * clock says twice after each attempt, and whether the caller is still authorized before it and after a match.
   */
  datatype Poll = Poll(
    capability: Capability,
    matcher: Matcher,
    timeout: int,
    interval: int,
    start: Time,
    inbox: (nat, Channel) -> Reading,
    tested: nat -> Time,
    measured: nat -> Time,
    authorized: nat -> bool,
    stillAuthorized: nat -> bool)
  {
    function Channels(): (cs: seq<Channel>)
      ensures |cs| > 0
    {
      ChannelOrder(capability)
    }

    function Interval(): (t: Time)
      ensures t >= SECOND
    {
      (if interval >= 1 then interval else 1) * SECOND
    }

    function Timeout(): (t: Time)
      ensures t >= 0
    {
      (if timeout >= 0 then timeout else 0) * SECOND
    }

    function Deadline(): Time {
      start + Timeout()
    }

    function Sleep(a: nat): (t: Time)
      ensures 0 <= t <= Interval()
    {
      var left := if Deadline() - measured(a) > 0 then Deadline() - measured(a) else 0;
      if left < Interval() then left else Interval()
    }

    predicate TimeUp(a: nat) {
      tested(a) >= Deadline() || Sleep(a) <= 0
    }

    /** The clock never goes back, and sleeping takes at least as long as asked. */
    ghost predicate ClockAdvances() {
      start <= tested(1) && forall a: nat :: tested(a) <= measured(a) && measured(a) + Sleep(a) <= tested(a + 1)
    }

    /** Bytes read before the c-th channel of attempt `a`, counted over the whole request. */
    ghost function Used(a: nat, c: nat): (n: nat)
      requires c <= |Channels()|
      ensures n <= 1_048_576
      decreases a, c
    {
      if c > 0 then Used(a, c - 1) + ResultAfter(a, c - 1, Used(a, c - 1)).bytes
      else if a > 1 then Used(a - 1, |Channels()|)
      else 0
    }

    ghost function ResultAfter(a: nat, c: nat, used: nat): (r: Scanned)
      requires c < |Channels()| && used <= MAX_REQUEST_BODY_BYTES
      ensures used + r.bytes <= MAX_REQUEST_BODY_BYTES
    {
      match inbox(a, Channels()[c])
      case Unreadable => Scanned(None, 0, false)
      case Listed(messages) => Answer(messages, matcher, MAX_REQUEST_BODY_BYTES - used)
    }

    ghost function ResultOf(a: nat, c: nat): Scanned
      requires c < |Channels()|
    {
      ResultAfter(a, c, Used(a, c))
    }

    ghost predicate Silent(a: nat, c: nat)
      requires c < |Channels()|
    {
      ResultOf(a, c).code.None? && !ResultOf(a, c).exhausted
    }

    ghost predicate SilentBefore(a: nat, c: nat)
      requires c <= |Channels()|
    {
      && (forall k, d :: 1 <= k < a && 0 <= d < |Channels()| ==> Silent(k, d))
      && (forall d :: 0 <= d < c ==> Silent(a, d))
    }

    predicate UnreadableBefore(a: nat, c: nat)
      requires c <= |Channels()|
    {
      && (forall k, d :: 1 <= k < a && 0 <= d < |Channels()| ==> inbox(k, Channels()[d]).Unreadable?)
      && (forall d :: 0 <= d < c ==> inbox(a, Channels()[d]).Unreadable?)
    }

    /** How far the clock has come at least before the attempt after `a` attempts. */
    function Elapsed(a: nat): Time {
      if a * Interval() < Timeout() then a * Interval() else Timeout()
    }
  }

  datatype Outcome = Found(code: string, channel: Channel) | NotFound | Unreachable | Refused

  function Ceiling(t: Time, unit: Time): int
    requires t >= 0 && unit > 0
  {
    (t + unit - 1) / unit
  }

  /** How many intervals begin before the timeout; both in seconds, an interval being one second at least. */
  function Attempts(timeout: int, interval: int): int {
    Ceiling(if timeout > 0 then timeout else 0, if interval > 1 then interval else 1)
  }

  lemma CeilingIsLeast(t: Time, unit: Time)
    requires t >= 0 && unit > 0
    ensures var c := Ceiling(t, unit); c >= 0 && (c - 1) * unit < t <= c * unit
  {
    var c := Ceiling(t, unit);
    assert t + unit - 1 == c * unit + (t + unit - 1) % unit;
    assert (c - 1) * unit == c * unit - unit;
  }

  /** Time is up once the clock has reached the start plus the timeout; before that a sleep ends no later than this, and lasts no longer than the interval. */
  lemma DeadlineIsKept(p: Poll, a: nat)
    ensures var deadline := p.start + 1_000_000 * (if p.timeout > 0 then p.timeout else 0);
            && (p.TimeUp(a) <==> p.tested(a) >= deadline || p.measured(a) >= deadline)
            && (p.measured(a) <= deadline ==> p.measured(a) + p.Sleep(a) <= deadline)
            && (p.measured(a) + p.Sleep(a) < deadline ==> p.Sleep(a) == 1_000_000 * (if p.interval > 1 then p.interval else 1))
  {
  }

  /** A known channel is the only one tried; otherwise IMAP comes first. */
  lemma ChannelsInOrder(capability: Capability)
    ensures var cs := ChannelOrder(capability);
            && (capability == Imap ==> cs == [ImapChannel]) && (capability == Graph ==> cs == [GraphChannel])
            && (capability == Unknown ==> cs == [ImapChannel, GraphChannel])
  {
  }

  lemma BelowCeiling(n: int, t: Time, unit: Time)
    requires t >= 0 && unit > 0
    ensures n * unit < t ==> n < Ceiling(t, unit)
  {
  }

  lemma FirstAttempt(p: Poll)
    ensures p.Used(1, 0) == 0 && p.SilentBefore(1, 0) && p.UnreadableBefore(1, 0)
  {
  }

  lemma NextAttempt(p: Poll, a: nat)
    requires a >= 1
    ensures p.Used(a + 1, 0) == p.Used(a, |p.Channels()|)
    ensures p.SilentBefore(a, |p.Channels()|) ==> p.SilentBefore(a + 1, 0)
    ensures p.UnreadableBefore(a, |p.Channels()|) <==> p.UnreadableBefore(a + 1, 0)
  {
    hide p.Silent, p.Channels, p.ResultAfter;
  }

  lemma NextChannel(p: Poll, a: nat, c: nat)
    requires c < |p.Channels()|
    ensures p.Used(a, c + 1) == p.Used(a, c) + p.ResultOf(a, c).bytes
    ensures p.SilentBefore(a, c) && p.ResultOf(a, c).code.None? && !p.ResultOf(a, c).exhausted ==> p.SilentBefore(a, c + 1)
    ensures p.UnreadableBefore(a, c + 1) <==> p.UnreadableBefore(a, c) && p.inbox(a, p.Channels()[c]).Unreadable?
  {
    hide p.Channels, p.ResultAfter;
  }

  /** The scan of channel `c` on attempt `a` comes before that of `d` on attempt `b`. */
  predicate Earlier(a: nat, c: nat, b: nat, d: nat) {
    a < b || (a == b && c < d)
  }

  lemma {:induction false} UsedGrows(p: Poll, a: nat, c: nat, b: nat, d: nat)
    requires 1 <= a && c < |p.Channels()| && d <= |p.Channels()| && Earlier(a, c, b, d)
    ensures p.Used(a, c) + p.ResultOf(a, c).bytes <= p.Used(b, d)
    decreases b, d
  {
    hide p.Channels, p.ResultAfter;
    if d > 0 {
      NextChannel(p, b, d - 1);
      if a == b && c == d - 1 {
      } else {
        UsedGrows(p, a, c, b, d - 1);
      }
    } else {
      UsedGrows(p, a, c, b - 1, |p.Channels()|);
    }
  }

  /** A request has room for at most two scans that read more than 448 KiB each, so at most two scans are cut short without ending it. */
  lemma AtMostTwoLargeScans(p: Poll, a: nat, c: nat, b: nat, d: nat, e: nat, f: nat)
    requires 1 <= a && c < |p.Channels()| && d < |p.Channels()| && f < |p.Channels()|
    requires Earlier(a, c, b, d) && Earlier(b, d, e, f)
    ensures !(p.ResultOf(a, c).bytes > 458_752 && p.ResultOf(b, d).bytes > 458_752 && p.ResultOf(e, f).bytes > 458_752)
  {
    UsedGrows(p, a, c, b, d);
    UsedGrows(p, b, d, e, f);
    NextChannel(p, e, f);
    hide p.Channels, p.ResultAfter, p.Used;
  }

  lemma NothingRead(p: Poll, a: nat, c: nat)
    requires c < |p.Channels()| && p.inbox(a, p.Channels()[c]).Unreadable?
    ensures p.ResultOf(a, c) == Scanned(None, 0, false)
  {
  }

  lemma ResultIs(p: Poll, a: nat, c: nat, r: Scanned)
    requires c < |p.Channels()| && p.inbox(a, p.Channels()[c]).Listed?
    requires Scans(p.inbox(a, p.Channels()[c]).messages, p.matcher, MAX_REQUEST_BODY_BYTES - p.Used(a, c), r)
    ensures p.ResultOf(a, c) == r
  {
    hide Scans, p.Channels;
    ScanIsUnique(p.inbox(a, p.Channels()[c]).messages, p.matcher, MAX_REQUEST_BODY_BYTES - p.Used(a, c), r, p.ResultOf(a, c));
  }

  lemma ClockStarts(p: Poll)
    requires p.ClockAdvances()
    ensures p.tested(1) >= p.start + p.Elapsed(0) && p.Interval() > 0
  {
  }

  lemma LastAttempt(p: Poll, a: nat)
    requires a >= 1 && (a - 1) * p.Interval() < p.Timeout() + p.Interval()
    ensures a <= Attempts(p.timeout, p.interval) + 1
    ensures a * p.Interval() == (a - 1) * p.Interval() + p.Interval()
  {
    var t, i := (if p.timeout > 0 then p.timeout else 0), (if p.interval > 1 then p.interval else 1);
    assert p.Timeout() == t * SECOND && p.Interval() == i * SECOND;
    assert (a - 2) * p.Interval() == (a - 1) * p.Interval() - p.Interval();
    InSeconds(a - 2, i, t);
    BelowCeiling(a - 2, t, i);
  }

  lemma InSeconds(n: int, i: int, t: int)
    requires n * (i * SECOND) < t * SECOND
    ensures n * i < t
  {
    assert n * (i * SECOND) == (n * i) * SECOND;
  }

  /** Unless time is up, sleeping brings the clock one interval on, or to the deadline. */
  lemma ClockStep(p: Poll, a: nat)
    requires p.ClockAdvances() && a >= 1 && p.tested(a) >= p.start + p.Elapsed(a - 1) && !p.TimeUp(a)
    ensures (a - 1) * p.Interval() < p.Timeout()
    ensures p.tested(a + 1) >= p.start + p.Elapsed(a)
  {
    assert a * p.Interval() == (a - 1) * p.Interval() + p.Interval();
    hide p.Interval, p.Timeout;
  }

  /**
   * Polls until a code is found, the request's byte budget is used up, or time is up. If the clock advances,
   * at most one attempt more is made than intervals begin before the deadline.
   */
  method WaitForVerificationCode(p: Poll) returns (outcome: Outcome, attempts: nat)
    requires p.ClockAdvances()
    ensures 1 <= attempts <= Attempts(p.timeout, p.interval) + 1
    ensures outcome.Found? ==>
              exists c: nat :: c < |p.Channels()| && p.SilentBefore(attempts, c) && p.stillAuthorized(attempts)
                && p.ResultOf(attempts, c).code == Some(outcome.code) && p.Channels()[c] == outcome.channel
    ensures outcome.NotFound? ==>
              || (p.SilentBefore(attempts, |p.Channels()|) && p.TimeUp(attempts) && !p.UnreadableBefore(attempts, |p.Channels()|))
              || exists c: nat :: c < |p.Channels()| && p.SilentBefore(attempts, c)
                   && p.ResultOf(attempts, c).code.None? && p.ResultOf(attempts, c).exhausted
    ensures outcome.Unreachable? ==> p.TimeUp(attempts) && p.UnreadableBefore(attempts, |p.Channels()|)
    ensures outcome.Refused? ==>
              || !p.authorized(attempts)
              || exists c: nat :: c < |p.Channels()| && p.SilentBefore(attempts, c) && p.ResultOf(attempts, c).code.Some?
                   && !p.stillAuthorized(attempts)
    ensures forall a :: 1 <= a < attempts ==> p.authorized(a) && !p.TimeUp(a)
  {
    hide *;
    var channels := p.Channels();
    var succeeded := false;
    var consumed := 0;
    attempts := 0;
    FirstAttempt(p);
    ClockStarts(p);
    while true
      invariant attempts * p.Interval() < p.Timeout() + p.Interval() && p.tested(attempts + 1) >= p.start + p.Elapsed(attempts)
      invariant consumed == p.Used(attempts + 1, 0)
      invariant p.SilentBefore(attempts + 1, 0)
      invariant succeeded <==> !p.UnreadableBefore(attempts + 1, 0)
      invariant forall a :: 1 <= a <= attempts ==> p.authorized(a) && !p.TimeUp(a)
      decreases p.Timeout() + p.Interval() - attempts * p.Interval()
    {
      attempts := attempts + 1;
      LastAttempt(p, attempts);
      if !p.authorized(attempts) {
        return Refused, attempts;
      }
      for c := 0 to |channels|
        invariant consumed == p.Used(attempts, c)
        invariant p.SilentBefore(attempts, c)
        invariant succeeded <==> !p.UnreadableBefore(attempts, c)
      {
        NextChannel(p, attempts, c);
        var reading := p.inbox(attempts, channels[c]);
        if reading.Unreadable? {
          NothingRead(p, attempts, c);
          continue;
        }
        succeeded := true;
        var r := FindCodeInMessages(reading.messages, p.matcher, MAX_REQUEST_BODY_BYTES - consumed);
        ResultIs(p, attempts, c, r);
        consumed := consumed + r.bytes;
        if r.code.Some? {
          if !p.stillAuthorized(attempts) {
            return Refused, attempts;
          }
          return Found(r.code.value, channels[c]), attempts;
        }
        if r.exhausted {
          return NotFound, attempts;
        }
      }
      if p.TimeUp(attempts) {
        break;
      }
      ClockStep(p, attempts);
      NextAttempt(p, attempts);
    }
    return if succeeded then NotFound else Unreachable, attempts;
  }
}
