/** Emailed verification codes and their abuse limits: backend/app/core/verification.py
    with the register, resend, verify and password reset endpoints of
    backend/app/api/v1/endpoints/auth.py that use it. Each step holds the account's
    row lock. Times are seconds, as reals; a resend reads the clock twice, once to
    check the limits and once to issue the code. */
module VerificationCodes {
  import opened Options

  type Time = real

  const COOLDOWN: Time := 60.0
  const HOUR: Time := 3600.0
  const TTL: Time := 900.0
  const MAX_SENDS := 5
  const MAX_ATTEMPTS := 5

  datatype User = User(
    verified: bool, token: Option<string>, expires: Option<Time>, attempts: nat,
    sentAt: Option<Time>, windowStart: Option<Time>, sendCount: nat)

  const NEW_USER := User(false, None, None, 0, None, None, 0)

  datatype Step =
    | Register(now: Time, code: string)
    | Resend(check: Time, issue: Time, code: string)
    | Verify(now: Time, code: string)
    | ResetPassword(now: Time)

  /** When a step acts. */
  function At(step: Step): Time {
    if step.Resend? then step.issue else step.now
  }

  /** Within one resend the clock does not go back. */
  ghost predicate Ordered(step: Step) {
    step.Resend? ==> step.check <= step.issue
  }

  ghost predicate Clock(steps: seq<Step>) {
    forall step <- steps :: Ordered(step)
  }

  /** can_send_code. */
  predicate CanSend(user: User, now: Time) {
    && !(user.sentAt.Some? && now - user.sentAt.value < COOLDOWN)
    && !(user.windowStart.Some? && now - user.windowStart.value < HOUR && user.sendCount >= MAX_SENDS)
  }

  /** issue_verification_code. */
  function Issue(user: User, now: Time, code: string): User {
    var issued := user.(token := Some(code), expires := Some(now + TTL), attempts := 0, sentAt := Some(now));
    if user.windowStart.None? || now - user.windowStart.value >= HOUR then
      issued.(windowStart := Some(now), sendCount := 1)
    else issued.(sendCount := user.sendCount + 1)
  }

  /** code_matches. */
  predicate Matches(user: User, now: Time, code: string) {
    user.token == Some(code) && user.expires.Some? && user.expires.value >= now
  }

  /** The account is confirmed and its verification state cleared. */
  function Confirmed(user: User): User {
    NEW_USER.(verified := true)
  }

  function Next(account: Option<User>, step: Step): Option<User> {
    match step
    case Register(now, code) => if account.Some? then account else Some(Issue(NEW_USER, now, code))
    case Resend(check, issue, code) => if Sends(account, step) then Some(Issue(account.value, issue, code)) else account
    case Verify(now, code) =>
      if account.None? || account.value.verified || account.value.attempts >= MAX_ATTEMPTS then account
      else if Matches(account.value, now, code) then Some(Confirmed(account.value))
      else Some(account.value.(attempts := account.value.attempts + 1))
    case ResetPassword(_) =>
      if account.None? || account.value.verified then account else Some(Confirmed(account.value))
  }

  /** Whether the step sends a code. */
  predicate Sends(account: Option<User>, step: Step) {
    || (step.Register? && account.None?)
    || (step.Resend? && account.Some? && !account.value.verified && CanSend(account.value, step.check))
  }

  /** Whether the step is a wrong guess that was looked at. */
  predicate Guesses(account: Option<User>, step: Step) {
    && step.Verify? && account.Some? && !account.value.verified && account.value.attempts < MAX_ATTEMPTS
    && !Matches(account.value, step.now, step.code)
  }

  function Run(steps: seq<Step>): Option<User> {
    if steps == [] then None else Next(Run(steps[..|steps| - 1]), steps[|steps| - 1])
  }

  /** When codes were sent over a run. */
  function SentTimes(steps: seq<Step>): seq<Time> {
    if steps == [] then []
    else
      var init, step := steps[..|steps| - 1], steps[|steps| - 1];
      SentTimes(init) + if Sends(Run(init), step) then [At(step)] else []
  }

  /** The start of the window each of them was counted in. */
  function WindowStarts(steps: seq<Step>): seq<Time> {
    if steps == [] then []
    else
      var init, step := steps[..|steps| - 1], steps[|steps| - 1];
      WindowStarts(init) + if Sends(Run(init), step) then [WindowOf(Run(steps))] else []
  }

  function WindowOf(account: Option<User>): Time {
    if account.Some? && account.value.windowStart.Some? then account.value.windowStart.value else 0.0
  }

  // ----- what every run keeps

  /** Any two sends are at least the cooldown apart. */
  ghost predicate Spaced(sent: seq<Time>) {
    forall i, j :: 0 <= i < j < |sent| ==> sent[i] + COOLDOWN <= sent[j]
  }

  /** Windows are an hour apart, and each send lies in the hour of its window. */
  ghost predicate InWindows(sent: seq<Time>, window: seq<Time>) {
    && |sent| == |window|
    && (forall i :: 0 <= i < |sent| ==> window[i] <= sent[i] < window[i] + HOUR)
    && (forall i, j :: 0 <= i < j < |window| ==> window[i] == window[j] || window[i] + HOUR <= window[j])
  }

  /** No window is that of more than MAX_SENDS sends. */
  ghost predicate Limited(window: seq<Time>) {
    forall i, j :: 0 <= i && i + MAX_SENDS <= j < |window| ==> window[i] != window[j]
  }

  /** The window of send `i` starts with a send. */
  ghost predicate Opened(sent: seq<Time>, window: seq<Time>, i: int) {
    exists k :: 0 <= k <= i < |sent| && i < |window| && window[k] == window[i] == sent[k]
  }

  ghost predicate AllOpened(sent: seq<Time>, window: seq<Time>) {
    forall i :: 0 <= i < |sent| ==> Opened(sent, window, i)
  }

  ghost predicate History(sent: seq<Time>, window: seq<Time>) {
    Spaced(sent) && InWindows(sent, window) && Limited(window) && AllOpened(sent, window)
  }

  /** The user row agrees with the history: the last send, its window, and how many
      sends that window has had. */
  ghost predicate Agrees(user: User, sent: seq<Time>, window: seq<Time>) {
    var n := |sent|;
    && |window| == n > 0
    && user.sentAt == Some(sent[n - 1]) && user.windowStart == Some(window[n - 1])
    && 1 <= user.sendCount <= MAX_SENDS && user.sendCount <= n
    && sent[n - user.sendCount] == window[n - 1] && window[n - user.sendCount] == window[n - 1]
    && (user.sendCount < n ==> window[n - user.sendCount - 1] != window[n - 1])
  }

  ghost predicate InvOf(account: Option<User>, sent: seq<Time>, window: seq<Time>) {
    && History(sent, window)
    && (account.None? ==> sent == [])
    && (account.Some? && !account.value.verified ==> Agrees(account.value, sent, window))
  }

  lemma FirstSend(now: Time, code: string)
    ensures InvOf(Some(Issue(NEW_USER, now, code)), [now], [now])
  {
    var one := [now];
    assert one[0] == now;
    assert Opened(one, one, 0);
    hide Opened;
  }

  lemma SpacedMore(sent: seq<Time>, now: Time)
    requires Spaced(sent) && |sent| > 0 && sent[|sent| - 1] + COOLDOWN <= now
    ensures Spaced(sent + [now])
  {
  }

  lemma InWindowsMore(sent: seq<Time>, window: seq<Time>, now: Time, w: Time)
    requires InWindows(sent, window) && w <= now < w + HOUR && |sent| > 0
    requires w == window[|window| - 1] || window[|window| - 1] + HOUR <= w
    ensures InWindows(sent + [now], window + [w])
  {
    var window' := window + [w];
    forall i, j | 0 <= i < j < |window'|
      ensures window'[i] == window'[j] || window'[i] + HOUR <= window'[j]
    {
      if j == |window| && i < |window| - 1 {
        assert window[i] == window[|window| - 1] || window[i] + HOUR <= window[|window| - 1];
      }
    }
  }

  lemma LimitedMore(sent: seq<Time>, window: seq<Time>, w: Time, count: nat)
    requires InWindows(sent, window) && Limited(window) && 1 <= count <= |window|
    requires w == window[|window| - 1] ==> count < MAX_SENDS
    requires w == window[|window| - 1] || window[|window| - 1] + HOUR <= w
    requires count < |window| ==> window[|window| - count - 1] != window[|window| - 1]
    ensures Limited(window + [w])
  {
    var n, window' := |window|, window + [w];
    forall i, j | 0 <= i && i + MAX_SENDS <= j < |window'|
      ensures window'[i] != window'[j]
    {
      if j == n {
        var before := n - count - 1;
        assert window[i] == window[n - 1] || window[i] + HOUR <= window[n - 1];
        if w == window[n - 1] {
          assert i <= before;
          assert window[before] + HOUR <= window[n - 1];
          assert i == before || window[i] == window[before] || window[i] + HOUR <= window[before];
        }
      }
    }
  }

  lemma OpenedMore(sent: seq<Time>, window: seq<Time>, now: Time, w: Time, first: nat)
    requires |sent| == |window| && AllOpened(sent, window)
    requires if w == now then first == |sent| else first < |sent| && sent[first] == window[first] == w
    ensures AllOpened(sent + [now], window + [w])
  {
    var sent', window' := sent + [now], window + [w];
    forall i | 0 <= i < |sent'|
      ensures Opened(sent', window', i)
    {
      if i < |sent| {
        assert Opened(sent, window, i);
        var k :| 0 <= k <= i < |sent| && window[k] == window[i] == sent[k];
        assert window'[k] == window'[i] == sent'[k];
      } else {
        assert window'[first] == window'[i] == sent'[first];
      }
    }
  }

  /** One more send, in the window that is open or in a new one. */
  lemma OneMore(user: User, sent: seq<Time>, window: seq<Time>, check: Time, now: Time, code: string)
    requires History(sent, window) && Agrees(user, sent, window)
    requires CanSend(user, check) && check <= now
    ensures var after := Issue(user, now, code);
            && after.windowStart.Some?
            && History(sent + [now], window + [after.windowStart.value])
            && Agrees(after, sent + [now], window + [after.windowStart.value])
  {
    var n, after := |sent|, Issue(user, now, code);
    var w := after.windowStart.value;
    assert InWindows(sent, window) && window[n - 1] <= sent[n - 1];
    SpacedMore(sent, now);
    InWindowsMore(sent, window, now, w);
    LimitedMore(sent, window, w, user.sendCount);
    OpenedMore(sent, window, now, w, if w == now then n else n - user.sendCount);
    hide Spaced, InWindows, Limited, AllOpened;
    var sent', window' := sent + [now], window + [w];
    assert sent'[n] == now && window'[n] == w;
    assert w == window[n - 1] ==> window'[n - user.sendCount] == window[n - user.sendCount];
  }

  ghost predicate Inv(steps: seq<Step>) {
    InvOf(Run(steps), SentTimes(steps), WindowStarts(steps))
  }

  /** What holds after every run. */
  lemma {:induction false} RunKeepsInv(steps: seq<Step>)
    requires Clock(steps)
    ensures Inv(steps)
  {
    if steps != [] {
      var init, step := steps[..|steps| - 1], steps[|steps| - 1];
      RunKeepsInv(init);
      StepKeepsInv(Run(init), step, SentTimes(init), WindowStarts(init));
      hide InvOf, Sends, Next;
      assert SentTimes(init) + [] == SentTimes(init) && WindowStarts(init) + [] == WindowStarts(init);
    }
  }

  lemma StepKeepsInv(account: Option<User>, step: Step, sent: seq<Time>, window: seq<Time>)
    requires InvOf(account, sent, window) && Ordered(step)
    ensures var after := Next(account, step);
            if Sends(account, step) then InvOf(after, sent + [At(step)], window + [WindowOf(after)])
            else InvOf(after, sent, window)
  {
    hide History, Agrees, CanSend, Issue;
    if Sends(account, step) {
      if step.Register? {
        EmptyHistory(sent, window);
        FirstSend(step.now, step.code);
        assert WindowOf(Next(account, step)) == step.now by {
          FirstWindow(step.now, step.code);
        }
        assert sent + [step.now] == [step.now] && window + [step.now] == [step.now];
      } else {
        OneMore(account.value, sent, window, step.check, step.issue, step.code);
        IssueKeepsUnverified(account.value, step.issue, step.code);
      }
    } else {
      NoSend(account, step, sent, window);
    }
  }

  lemma EmptyHistory(sent: seq<Time>, window: seq<Time>)
    requires History(sent, window) && sent == []
    ensures window == []
  {
  }

  lemma FirstWindow(now: Time, code: string)
    ensures Issue(NEW_USER, now, code).windowStart == Some(now)
  {
  }

  lemma IssueKeepsUnverified(user: User, now: Time, code: string)
    ensures Issue(user, now, code).verified == user.verified
  {
  }

  /** Guesses and confirmations leave the limits of an unverified account alone. */
  lemma NoSend(account: Option<User>, step: Step, sent: seq<Time>, window: seq<Time>)
    requires InvOf(account, sent, window) && !Sends(account, step)
    ensures InvOf(Next(account, step), sent, window)
  {
    hide History, CanSend;
  }

  // ----- the limits

  /** Any two sends are at least the cooldown apart. */
  lemma {:induction false} SendsSpaced(steps: seq<Step>, i: nat, j: nat)
    requires Clock(steps) && i < j < |SentTimes(steps)|
    ensures SentTimes(steps)[i] + COOLDOWN <= SentTimes(steps)[j]
  {
    RunKeepsInv(steps);
  }

  /** No window of an hour, counted from the send that opened it, has more than
      MAX_SENDS sends. */
  lemma {:induction false} WindowLimit(steps: seq<Step>, start: Time)
    requires Clock(steps)
    ensures var window := WindowStarts(steps);
            |window| == |SentTimes(steps)| && |set i: nat | 0 <= i < |window| && window[i] == start| <= MAX_SENDS
  {
    RunKeepsInv(steps);
    var window := WindowStarts(steps);
    var same := set i: nat | 0 <= i < |window| && window[i] == start;
    if same != {} {
      var first := Least(same);
      assert Limited(window);
      assert forall i <- same :: first <= i < first + MAX_SENDS;
      Within(same, first, MAX_SENDS);
    }
  }

  lemma {:induction false} Least(s: set<nat>) returns (m: nat)
    requires s != {}
    ensures m in s && forall i <- s :: m <= i
    decreases |s|
  {
    var x :| x in s;
    var rest := s - {x};
    if rest != {} {
      var r := Least(rest);
      assert forall i <- s :: i == x || i in rest;
      m := if r < x then r else x;
    } else {
      assert s == {x};
      m := x;
    }
  }

  /** A set of numbers between `a` and `a + n` has at most `n` of them. */
  lemma {:induction false} Within(s: set<nat>, a: nat, n: nat)
    requires forall i <- s :: a <= i < a + n
    ensures |s| <= n
    decreases n
  {
    if n == 0 {
      assert s == {};
    } else {
      Within(s - {a + n - 1}, a, n - 1);
    }
  }

  lemma NotBefore(window: seq<Time>, k: nat, i: nat, m: nat)
    requires Limited(window) && k <= m < |window| && m + 1 == i + MAX_SENDS && window[k] == window[m]
    ensures i <= k
  {
  }

  lemma InOrder(sent: seq<Time>, i: nat, k: nat)
    requires Spaced(sent) && i <= k < |sent|
    ensures sent[i] <= sent[k]
  {
  }

  /** Sends that are `2 * MAX_SENDS - 1` apart in the list are an hour apart in time:
      between them a window ends, and the next one runs its whole hour. */
  lemma HourApart(sent: seq<Time>, window: seq<Time>, i: nat, j: nat)
    requires History(sent, window) && i + 2 * MAX_SENDS - 1 <= j < |sent|
    ensures sent[i] + HOUR <= sent[j]
  {
    var m := i + MAX_SENDS - 1;
    assert window[m] != window[j];
    assert window[m] + HOUR <= window[j];
    if window[m] == window[i] {
      assert Opened(sent, window, m);
      var k :| 0 <= k <= m < |sent| && window[k] == window[m] == sent[k];
      NotBefore(window, k, i, m);
      InOrder(sent, i, k);
    } else {
      assert window[i] + HOUR <= window[m];
    }
  }

  /** How many codes were sent from one time on and before another. */
  function SendsBetween(steps: seq<Step>, from: Time, to: Time): nat {
    var sent := SentTimes(steps);
    |set i: nat | 0 <= i < |sent| && from <= sent[i] < to|
  }

  /** How many codes were sent in the hour from `start`. */
  function SendsIn(steps: seq<Step>, start: Time): nat {
    SendsBetween(steps, start, start + HOUR)
  }

  /** Any half-open hour holds at most `2 * MAX_SENDS - 1` sends. */
  lemma {:induction false} HourLimit(steps: seq<Step>, start: Time)
    requires Clock(steps)
    ensures SendsIn(steps, start) <= 2 * MAX_SENDS - 1
  {
    RunKeepsInv(steps);
    var sent := SentTimes(steps);
    var inside := set i: nat | 0 <= i < |sent| && start <= sent[i] < start + HOUR;
    if inside != {} {
      var first := Least(inside);
      forall i | i in inside
        ensures first <= i < first + 2 * MAX_SENDS - 1
      {
        if i >= first + 2 * MAX_SENDS - 1 {
          HourApart(sent, WindowStarts(steps), first, i);
        }
      }
      Within(inside, first, 2 * MAX_SENDS - 1);
    }
  }

  // ----- the hours that keep the hourly limit

  /** A window opens inside the hour from `start`, after its beginning. */
  ghost predicate OpensInside(steps: seq<Step>, start: Time, w: Time) {
    start < w < start + HOUR && exists i :: 0 <= i < |WindowStarts(steps)| && WindowStarts(steps)[i] == w
  }

  lemma WindowsInOrder(sent: seq<Time>, window: seq<Time>, i: nat, j: nat)
    requires InWindows(sent, window) && i <= j < |window|
    ensures window[i] == window[j] || window[i] + HOUR <= window[j]
  {
  }

  lemma SameWindowNear(window: seq<Time>, i: nat, j: nat)
    requires Limited(window) && i <= j < |window| && window[i] == window[j]
    ensures j < i + MAX_SENDS
  {
  }

  /** Sends of one hour, all in windows that opened by its beginning, are of one window. */
  lemma OneWindow(sent: seq<Time>, window: seq<Time>, start: Time, i: nat, j: nat)
    requires History(sent, window) && i <= j < |sent| && start <= sent[i] && window[j] <= start
    ensures window[i] == window[j] && j < i + MAX_SENDS
  {
    WindowsInOrder(sent, window, i, j);
    SameWindowNear(window, i, j);
  }

  /** An hour in which no window opens after its beginning keeps the limit. */
  lemma {:induction false} SafeHour(steps: seq<Step>, start: Time)
    requires Clock(steps) && forall w :: !OpensInside(steps, start, w)
    ensures SendsIn(steps, start) <= MAX_SENDS
  {
    RunKeepsInv(steps);
    var sent, window := SentTimes(steps), WindowStarts(steps);
    var inside := set i: nat | 0 <= i < |sent| && start <= sent[i] < start + HOUR;
    if inside != {} {
      var first := Least(inside);
      forall i | i in inside
        ensures first <= i < first + MAX_SENDS
      {
        assert window[i] <= sent[i] < start + HOUR;
        assert !OpensInside(steps, start, window[i]);
        OneWindow(sent, window, start, first, i);
      }
      Within(inside, first, MAX_SENDS);
    }
  }

  /** Before a window that opens inside the hour, sends are of the window before it,
      which opened before the hour did: at least one of its sends is outside. */
  lemma SendsBeforeWindow(steps: seq<Step>, start: Time, w: Time)
    requires Clock(steps) && OpensInside(steps, start, w)
    ensures SendsBetween(steps, start, w) <= MAX_SENDS - 1
  {
    RunKeepsInv(steps);
    var sent, window := SentTimes(steps), WindowStarts(steps);
    var j :| 0 <= j < |window| && window[j] == w;
    var before := set i: nat | 0 <= i < |sent| && start <= sent[i] < w;
    if before != {} {
      var first := Least(before);
      OlderWindow(sent, window, w, first, j);
      assert Opened(sent, window, first);
      var k: nat :| k <= first < |sent| && first < |window| && window[k] == window[first] == sent[k];
      forall i | i in before
        ensures k + 1 <= i < k + 1 + (MAX_SENDS - 1)
      {
        OlderWindow(sent, window, w, i, j);
        OneWindow(sent, window, start, first, i);
        SameWindowNear(window, k, i);
      }
      Within(before, k + 1, MAX_SENDS - 1);
    }
  }

  /** A send before a window opens belongs to a window at least an hour older. */
  lemma OlderWindow(sent: seq<Time>, window: seq<Time>, w: Time, i: nat, j: nat)
    requires History(sent, window) && i < |sent| && j < |sent| && window[j] == w && sent[i] < w
    ensures window[i] + HOUR <= w
  {
    if j <= i {
      InOrder(sent, j, i);
    }
  }

  /** From the window's opening to the end of the hour, sends are of that window. */
  lemma SendsFromWindow(steps: seq<Step>, start: Time, w: Time)
    requires Clock(steps) && OpensInside(steps, start, w)
    ensures SendsBetween(steps, w, start + HOUR) <= MAX_SENDS
    ensures forall i :: 0 <= i < |SentTimes(steps)| && w <= SentTimes(steps)[i] < start + HOUR ==>
              i < |WindowStarts(steps)| && WindowStarts(steps)[i] == w
  {
    RunKeepsInv(steps);
    var sent, window := SentTimes(steps), WindowStarts(steps);
    var j: nat :| j < |window| && window[j] == w;
    var inside := set i: nat | 0 <= i < |sent| && w <= sent[i] < start + HOUR;
    forall i: nat | i < |sent| && w <= sent[i] < start + HOUR
      ensures window[i] == w
    {
      SameWindow(sent, window, w, i, j);
    }
    if inside != {} {
      var first := Least(inside);
      forall i | i in inside
        ensures first <= i < first + MAX_SENDS
      {
        SameWindowNear(window, first, i);
      }
      Within(inside, first, MAX_SENDS);
    }
  }

  lemma SameWindow(sent: seq<Time>, window: seq<Time>, w: Time, i: nat, j: nat)
    requires History(sent, window) && i < |sent| && j < |sent| && window[j] == w && w <= sent[i] < w + HOUR
    ensures window[i] == w
  {
    if i <= j {
      WindowsInOrder(sent, window, i, j);
    } else {
      WindowsInOrder(sent, window, j, i);
    }
  }

  lemma HourSplits(steps: seq<Step>, start: Time, w: Time)
    requires start < w < start + HOUR
    ensures SendsIn(steps, start) == SendsBetween(steps, start, w) + SendsBetween(steps, w, start + HOUR)
  {
    var sent := SentTimes(steps);
    var all := set i: nat | 0 <= i < |sent| && start <= sent[i] < start + HOUR;
    var before := set i: nat | 0 <= i < |sent| && start <= sent[i] < w;
    var after := set i: nat | 0 <= i < |sent| && w <= sent[i] < start + HOUR;
    assert all == before + after && before !! after;
  }

  /** An hour that holds more codes than the limit has a window opening inside it: of the
      sends left of the window before there are at most `MAX_SENDS - 1`, of those of the
      new one within the hour at most `MAX_SENDS`. */
  lemma {:induction false} HourAcrossWindow(steps: seq<Step>, start: Time)
    requires Clock(steps)
    ensures SendsIn(steps, start) > MAX_SENDS <==>
              exists w :: OpensInside(steps, start, w)
                && SendsBetween(steps, w, start + HOUR) > MAX_SENDS - SendsBetween(steps, start, w)
    ensures forall w :: OpensInside(steps, start, w) ==>
              && SendsBetween(steps, start, w) <= MAX_SENDS - 1
              && SendsBetween(steps, w, start + HOUR) <= MAX_SENDS
  {
    hide SendsBetween, OpensInside, Clock;
    forall w | OpensInside(steps, start, w)
      ensures SendsBetween(steps, start, w) <= MAX_SENDS - 1
      ensures SendsBetween(steps, w, start + HOUR) <= MAX_SENDS
      ensures SendsIn(steps, start) == SendsBetween(steps, start, w) + SendsBetween(steps, w, start + HOUR)
    {
      SendsBeforeWindow(steps, start, w);
      SendsFromWindow(steps, start, w);
      InsideIs(steps, start, w);
      HourSplits(steps, start, w);
    }
    if SendsIn(steps, start) > MAX_SENDS {
      if forall w :: !OpensInside(steps, start, w) {
        SafeHour(steps, start);
      } else {
        var w :| OpensInside(steps, start, w);
      }
    }
  }

  lemma InsideIs(steps: seq<Step>, start: Time, w: Time)
    requires OpensInside(steps, start, w)
    ensures start < w < start + HOUR
  {
  }

  /** So the hour from the opening of any window keeps the limit. */
  lemma {:induction false} WindowHourIsSafe(steps: seq<Step>, i: nat)
    requires Clock(steps) && i < |WindowStarts(steps)|
    ensures SendsIn(steps, WindowStarts(steps)[i]) <= MAX_SENDS
  {
    RunKeepsInv(steps);
    var start := WindowStarts(steps)[i];
    forall j: nat | j < |WindowStarts(steps)|
      ensures !(start < WindowStarts(steps)[j] < start + HOUR)
    {
      NoWindowBetween(WindowStarts(steps), SentTimes(steps), i, j);
    }
    SafeHour(steps, start);
  }

  lemma NoWindowBetween(window: seq<Time>, sent: seq<Time>, i: nat, j: nat)
    requires InWindows(sent, window) && i < |window| && j < |window|
    ensures !(window[i] < window[j] < window[i] + HOUR)
  {
    if i <= j {
      WindowsInOrder(sent, window, i, j);
    } else {
      WindowsInOrder(sent, window, j, i);
    }
  }

  // ----- when a new window lets an hour exceed the limit

  /** The last send opened a window. */
  ghost predicate OpensLast(steps: seq<Step>) {
    var sent, window := SentTimes(steps), WindowStarts(steps);
    0 < |sent| == |window| && window[|sent| - 1] == sent[|sent| - 1]
  }

  function LastSent(steps: seq<Step>): Time {
    var sent := SentTimes(steps);
    if sent == [] then 0.0 else sent[|sent| - 1]
  }

  /** With these further steps, an hour across the last send holds more codes than the
      limit. */
  ghost predicate Exceeds(steps: seq<Step>, more: seq<Step>, start: Time) {
    Clock(more) && start < LastSent(steps) < start + HOUR && SendsIn(steps + more, start) > MAX_SENDS
  }

  /** The code sent `j` before the last one was sent so lately that the codes the new
      window has left, sent as fast as the cooldown lets them, are within its hour. */
  predicate Lately(sent: seq<Time>, j: nat) {
    && 1 <= j < MAX_SENDS && j < |sent|
    && sent[|sent| - 1] + (MAX_SENDS - j) as real * COOLDOWN < sent[|sent| - 1 - j] + HOUR
  }

  predicate Unconfirmed(account: Option<User>) {
    account.Some? && !account.value.verified
  }

  lemma {:induction false} SentSoFar(steps: seq<Step>, more: seq<Step>)
    ensures SentTimes(steps) <= SentTimes(steps + more)
    ensures WindowStarts(steps) <= WindowStarts(steps + more)
  {
    hide Run, Sends;
    if more == [] {
      assert steps + more == steps;
    } else {
      var init := more[..|more| - 1];
      SentSoFar(steps, init);
      assert (steps + more)[..|steps + more| - 1] == steps + init;
    }
  }

  lemma {:induction false} NoneOnceConfirmed(steps: seq<Step>, more: seq<Step>)
    requires Run(steps).Some? && !Unconfirmed(Run(steps))
    ensures Run(steps + more) == Run(steps) && SentTimes(steps + more) == SentTimes(steps)
  {
    hide Next, Sends;
    if more == [] {
      assert steps + more == steps;
    } else {
      var init := more[..|more| - 1];
      NoneOnceConfirmed(steps, init);
      assert (steps + more)[..|steps + more| - 1] == steps + init;
      VerifiedForGood(Run(steps), more[|more| - 1]);
    }
  }

  lemma {:induction false} SpacedBy(sent: seq<Time>, i: nat, j: nat)
    requires Spaced(sent) && i <= j < |sent|
    ensures sent[i] + (j - i) as real * COOLDOWN <= sent[j]
  {
    if i < j {
      SpacedBy(sent, i, j - 1);
      assert sent[j - 1] + COOLDOWN <= sent[j];
    }
  }

  /** More sends than the limit within an hour: the first of them and the one `MAX_SENDS`
      later are. */
  lemma {:induction false} ManyInHour(sent: seq<Time>, start: Time) returns (first: nat)
    requires Spaced(sent) && |set i: nat | 0 <= i < |sent| && start <= sent[i] < start + HOUR| > MAX_SENDS
    ensures first + MAX_SENDS < |sent| && start <= sent[first] && sent[first + MAX_SENDS] < start + HOUR
  {
    var inside := set i: nat | 0 <= i < |sent| && start <= sent[i] < start + HOUR;
    assert inside != {};
    first := Least(inside);
    if forall i <- inside :: first <= i < first + MAX_SENDS {
      Within(inside, first, MAX_SENDS);
    } else {
      var last :| last in inside && last >= first + MAX_SENDS;
      InOrder(sent, first + MAX_SENDS, last);
    }
  }

  /** Such an hour across the opening of a window by send `o` starts at most
      `MAX_SENDS - 1` sends before it. */
  lemma AcrossWindow(sent: seq<Time>, window: seq<Time>, start: Time, o: nat, first: nat)
    requires History(sent, window) && o < |sent| && window[o] == sent[o] && start < sent[o] < start + HOUR
    requires first + MAX_SENDS < |sent| && start <= sent[first] && sent[first + MAX_SENDS] < start + HOUR
    ensures first < o < first + MAX_SENDS
  {
    hide Opened;
    if o <= first + MAX_SENDS {
      FitsWindow(sent, window, o, first + MAX_SENDS);
    }
    InOrder(sent, first, o - 1);
    OlderWindow(sent, window, sent[o], o - 1, o);
    OneWindow(sent, window, start, first, o - 1);
    var k := Opener(sent, window, first);
    SameWindowNear(window, k, o - 1);
  }

  /** Sends within an hour of a window's opening are of that window. */
  lemma FitsWindow(sent: seq<Time>, window: seq<Time>, o: nat, i: nat)
    requires History(sent, window) && o <= i < |sent| && window[o] == sent[o] && sent[i] < sent[o] + HOUR
    ensures i < o + MAX_SENDS
  {
    InOrder(sent, o, i);
    SameWindow(sent, window, sent[o], i, o);
    SameWindowNear(window, o, i);
  }

  lemma Opener(sent: seq<Time>, window: seq<Time>, i: nat) returns (k: nat)
    requires History(sent, window) && i < |sent|
    ensures k <= i && window[k] == window[i] == sent[k]
  {
    assert Opened(sent, window, i);
    k :| k <= i && window[k] == window[i] == sent[k];
  }

  /** `m` resends after time `w`, each the cooldown after the one before. */
  function Fast(w: Time, m: nat): seq<Step> {
    if m == 0 then []
    else
      var now := w + m as real * COOLDOWN;
      Fast(w, m - 1) + [Resend(now, now, "000000")]
  }

  lemma {:induction false} FastOrdered(w: Time, m: nat)
    ensures Clock(Fast(w, m))
  {
    if m > 0 {
      FastOrdered(w, m - 1);
    }
  }

  lemma OpenedAlone(steps: seq<Step>)
    requires Clock(steps) && OpensLast(steps) && Unconfirmed(Run(steps))
    ensures var user, w := Run(steps).value, SentTimes(steps)[|SentTimes(steps)| - 1];
            user.sentAt == Some(w) && user.windowStart == Some(w) && user.sendCount == 1
  {
    hide History, Agrees, Run, SentTimes, WindowStarts;
    RunKeepsInv(steps);
    HistoryOf(Run(steps), SentTimes(steps), WindowStarts(steps));
    AgreesAlone(Run(steps).value, SentTimes(steps), WindowStarts(steps));
  }

  lemma AgreesAlone(user: User, sent: seq<Time>, window: seq<Time>)
    requires Spaced(sent) && Agrees(user, sent, window) && sent[|sent| - 1] == window[|sent| - 1]
    ensures user.sentAt == Some(sent[|sent| - 1]) == user.windowStart && user.sendCount == 1
  {
  }

  /** The codes a new window has left can be sent that fast. */
  lemma {:induction false} FastAreSent(steps: seq<Step>, m: nat)
    requires Clock(steps) && OpensLast(steps) && Unconfirmed(Run(steps)) && m < MAX_SENDS
    ensures var sent := SentTimes(steps);
            var w := sent[|sent| - 1];
            var account, all := Run(steps + Fast(w, m)), SentTimes(steps + Fast(w, m));
            && Unconfirmed(account)
            && account.value.sentAt == Some(w + m as real * COOLDOWN)
            && account.value.windowStart == Some(w) && account.value.sendCount == m + 1
            && |all| == |sent| + m && sent <= all && all[|all| - 1] == w + m as real * COOLDOWN
  {
    var sent := SentTimes(steps);
    var w := sent[|sent| - 1];
    hide Clock;
    if m == 0 {
      OpenedAlone(steps);
      assert steps + Fast(w, 0) == steps;
    } else {
      FastAreSent(steps, m - 1);
      hide Run, Sends, Next, Unconfirmed, SentTimes;
      var before, now := steps + Fast(w, m - 1), w + m as real * COOLDOWN;
      assert steps + Fast(w, m) == before + [Resend(now, now, "000000")];
      OneFast(before, now);
    }
  }

  lemma OneFast(before: seq<Step>, now: Time)
    requires var account := Run(before);
             && Unconfirmed(account) && account.value.sentAt == Some(now - COOLDOWN)
             && account.value.windowStart.Some? && now - account.value.windowStart.value < HOUR
             && account.value.sendCount < MAX_SENDS
    ensures var user, account := Run(before).value, Run(before + [Resend(now, now, "000000")]);
            && Unconfirmed(account) && account.value.sentAt == Some(now)
            && account.value.windowStart == user.windowStart && account.value.sendCount == user.sendCount + 1
            && SentTimes(before + [Resend(now, now, "000000")]) == SentTimes(before) + [now]
  {
    var after := before + [Resend(now, now, "000000")];
    assert after[..|after| - 1] == before;
  }

  /** A set with all of `a` to `a + n` has more than `n` members. */
  lemma {:induction false} AtLeast(s: set<nat>, a: nat, n: nat)
    requires forall i :: a <= i <= a + n ==> i in s
    ensures |s| > n
  {
    if n > 0 {
      AtLeast(s - {a + n}, a, n - 1);
    }
  }

  /** When an opening window lets an hour hold more codes than the limit. The last send
      opened a window. Some further steps then make an hour across the opening exceed the
      limit exactly when the account is not confirmed and one of the sends before is so
      late that the rest of the new window's, at the pace of the cooldown, still falls
      within its hour. All of this is known as the window opens. */
  lemma {:induction false} HourCanExceedExactly(steps: seq<Step>)
    requires Clock(steps) && OpensLast(steps)
    ensures (exists more, start :: Exceeds(steps, more, start))
        <==> Unconfirmed(Run(steps)) && exists j: nat :: Lately(SentTimes(steps), j)
  {
    hide Exceeds, Lately, Unconfirmed, Run;
    if more, start :| Exceeds(steps, more, start) {
      ExceedsOnlyLately(steps, more, start);
    }
    if j: nat :| Unconfirmed(Run(steps)) && Lately(SentTimes(steps), j) {
      LatelyExceeds(steps, j);
    }
  }

  lemma ExceedsOnlyLately(steps: seq<Step>, more: seq<Step>, start: Time)
    requires Clock(steps) && OpensLast(steps) && Exceeds(steps, more, start)
    ensures Unconfirmed(Run(steps)) && exists j: nat :: Lately(SentTimes(steps), j)
  {
    hide Run, Sends, History, InvOf, SentTimes, WindowStarts, Unconfirmed, Clock;
    var sent, o := SentTimes(steps), |SentTimes(steps)| - 1;
    var all, window := SentTimes(steps + more), WindowStarts(steps + more);
    ClockOfBoth(steps, more);
    RunKeepsInv(steps + more);
    HistoryOf(Run(steps + more), all, window);
    SentSoFar(steps, more);
    var first := ManyInHour(all, start);
    assert window[o] == WindowStarts(steps)[o] && all[o] == sent[o];
    AcrossWindow(all, window, start, o, first);
    SpacedBy(all, o, first + MAX_SENDS);
    assert all[first] == sent[first];
    assert Lately(sent, o - first);
    SomeoneWasSent(steps);
    if !Unconfirmed(Run(steps)) {
      NoneOnceConfirmed(steps, more);
    }
  }

  lemma HistoryOf(account: Option<User>, sent: seq<Time>, window: seq<Time>)
    requires InvOf(account, sent, window)
    ensures History(sent, window) && Spaced(sent) && |sent| == |window|
  {
  }

  lemma SomeoneWasSent(steps: seq<Step>)
    requires Clock(steps) && SentTimes(steps) != []
    ensures Run(steps).Some?
  {
    RunKeepsInv(steps);
  }

  lemma LatelyExceeds(steps: seq<Step>, j: nat)
    requires Clock(steps) && OpensLast(steps) && Unconfirmed(Run(steps)) && Lately(SentTimes(steps), j)
    ensures exists more, start :: Exceeds(steps, more, start)
  {
    hide Run, Sends, Next, Clock, Unconfirmed, History, InvOf, SentTimes, WindowStarts;
    var sent, o := SentTimes(steps), |SentTimes(steps)| - 1;
    var more := Fast(sent[o], MAX_SENDS - j);
    var all := SentTimes(steps + more);
    FastOrdered(sent[o], MAX_SENDS - j);
    FastAreSent(steps, MAX_SENDS - j);
    ClockOfBoth(steps, more);
    RunKeepsInv(steps + more);
    HistoryOf(Run(steps + more), all, WindowStarts(steps + more));
    assert all[o - j] == sent[o - j] && all[o] == sent[o];
    SpacedBy(all, o - j, o);
    InOrder(all, o, o - j + MAX_SENDS);
    ManyFrom(all, o - j);
    assert Exceeds(steps, more, sent[o - j]);
  }

  lemma ManyFrom(all: seq<Time>, i: nat)
    requires Spaced(all) && i + MAX_SENDS < |all| && all[i + MAX_SENDS] < all[i] + HOUR
    ensures |set k: nat | 0 <= k < |all| && all[i] <= all[k] < all[i] + HOUR| > MAX_SENDS
  {
    var inside := set k: nat | 0 <= k < |all| && all[i] <= all[k] < all[i] + HOUR;
    forall k: nat | i <= k <= i + MAX_SENDS
      ensures k in inside
    {
      InOrder(all, i, k);
      InOrder(all, k, i + MAX_SENDS);
    }
    AtLeast(inside, i, MAX_SENDS);
  }

  lemma ClockOfBoth(steps: seq<Step>, more: seq<Step>)
    requires Clock(steps) && Clock(more)
    ensures Clock(steps + more)
  {
  }

  // ----- guesses

  /** How many wrong guesses were looked at over a run. */
  function GuessCount(steps: seq<Step>): nat {
    if steps == [] then 0
    else
      var init, step := steps[..|steps| - 1], steps[|steps| - 1];
      GuessCount(init) + if Guesses(Run(init), step) then 1 else 0
  }

  /** Each code sent allows at most MAX_ATTEMPTS wrong guesses. */
  lemma {:induction false} GuessLimit(steps: seq<Step>)
    ensures var account := Run(steps);
            && GuessCount(steps) <= MAX_ATTEMPTS * |SentTimes(steps)|
            && (account.Some? && !account.value.verified ==>
                  account.value.attempts <= MAX_ATTEMPTS
                  && GuessCount(steps) + MAX_ATTEMPTS - account.value.attempts <= MAX_ATTEMPTS * |SentTimes(steps)|)
  {
    if steps != [] {
      GuessLimit(steps[..|steps| - 1]);
      hide CanSend, Matches;
    }
  }

  /** Once confirmed, an account is sent no code and takes no guess. */
  lemma {:induction false} VerifiedForGood(account: Option<User>, step: Step)
    requires account.Some? && account.value.verified
    ensures Next(account, step) == account && !Sends(account, step) && !Guesses(account, step)
  {
  }

  // ----- which code confirms an account, and when one is sent

  function CodeOf(step: Step): string {
    if step.Register? || step.Resend? then step.code else ""
  }

  /** The codes sent over a run. */
  function CodesSent(steps: seq<Step>): seq<string> {
    if steps == [] then []
    else
      var init, step := steps[..|steps| - 1], steps[|steps| - 1];
      CodesSent(init) + if Sends(Run(init), step) then [CodeOf(step)] else []
  }

  /** How many guesses were made since the last code was sent. */
  function TriesSince(steps: seq<Step>): nat {
    if steps == [] then 0
    else
      var init, step := steps[..|steps| - 1], steps[|steps| - 1];
      if Sends(Run(init), step) then 0 else TriesSince(init) + if step.Verify? then 1 else 0
  }

  /** An unconfirmed row holds the last code sent, its expiry and the tries it has had. */
  ghost predicate HoldsLastCode(steps: seq<Step>) {
    Unconfirmed(Run(steps)) ==>
      var user, codes, sent := Run(steps).value, CodesSent(steps), SentTimes(steps);
      && 0 < |codes| == |sent|
      && user.token == Some(codes[|codes| - 1])
      && user.expires == Some(sent[|sent| - 1] + 15.0 * 60.0)
      && user.attempts == if TriesSince(steps) < 5 then TriesSince(steps) else 5
  }

  lemma {:induction false} RunHoldsLastCode(steps: seq<Step>)
    ensures HoldsLastCode(steps)
    ensures |CodesSent(steps)| == |SentTimes(steps)|
  {
    hide CanSend;
    if steps != [] {
      RunHoldsLastCode(steps[..|steps| - 1]);
    }
  }

  /** Over any run: a step confirms an unconfirmed account exactly when it is a password
      reset, or a guess that is the code sent last, no more than fifteen minutes after that
      and with fewer than five guesses made since. Nothing of the code is then kept. */
  lemma {:induction false} ConfirmedExactly(steps: seq<Step>, step: Step)
    requires Unconfirmed(Run(steps))
    ensures SentTimes(steps) != [] && CodesSent(steps) != []
    ensures Next(Run(steps), step).Some?
    ensures var codes, after := CodesSent(steps), Next(Run(steps), step).value;
            && (after.verified <==>
                  || step.ResetPassword?
                  || (step.Verify? && step.code == codes[|codes| - 1]
                      && step.now <= LastSent(steps) + 15.0 * 60.0 && TriesSince(steps) < 5))
            && (after.verified ==> after == User(true, None, None, 0, None, None, 0))
  {
    RunHoldsLastCode(steps);
    hide CanSend;
  }

  /** The sends counted in the window of the last one. */
  function InLastWindow(steps: seq<Step>): nat {
    var window := WindowStarts(steps);
    |set i: nat | 0 <= i < |window| && window[i] == window[|window| - 1]|
  }

  /** Over any run: a resend for an unconfirmed account is sent exactly when a minute has
      passed since the last send, and its hour is over or it has had fewer than five. */
  lemma {:induction false} SentExactly(steps: seq<Step>, check: Time, issue: Time, code: string)
    requires Clock(steps) && Unconfirmed(Run(steps))
    ensures WindowStarts(steps) != []
    ensures var window := WindowStarts(steps);
            Sends(Run(steps), Resend(check, issue, code)) <==>
              && check >= LastSent(steps) + 60.0
              && (check >= window[|window| - 1] + 3600.0 || InLastWindow(steps) < 5)
  {
    hide Run, SentTimes, WindowStarts, History;
    var sent, window := SentTimes(steps), WindowStarts(steps);
    RunKeepsInv(steps);
    HistoryOf(Run(steps), sent, window);
    SendCountIs(Run(steps).value, sent, window);
  }

  lemma SendCountIs(user: User, sent: seq<Time>, window: seq<Time>)
    requires History(sent, window) && Agrees(user, sent, window)
    ensures user.sendCount == |set i: nat | 0 <= i < |window| && window[i] == window[|window| - 1]|
  {
    var n, first := |window|, |window| - user.sendCount;
    var same := set i: nat | 0 <= i < n && window[i] == window[n - 1];
    forall i: nat | i < n
      ensures i in same <==> first <= i
    {
      if i < first {
        NotLast(sent, window, i, first);
      } else {
        WindowsInOrder(sent, window, first, i);
        WindowsInOrder(sent, window, i, n - 1);
      }
    }
    RangeSize(same, first, user.sendCount);
  }

  lemma NotLast(sent: seq<Time>, window: seq<Time>, i: nat, first: nat)
    requires InWindows(sent, window) && i < first < |window| && window[first] == window[|window| - 1]
    requires window[first - 1] != window[|window| - 1]
    ensures window[i] != window[|window| - 1]
  {
    WindowsInOrder(sent, window, i, first - 1);
    WindowsInOrder(sent, window, first - 1, |window| - 1);
  }

  lemma {:induction false} RangeSize(s: set<nat>, a: nat, n: nat)
    requires forall i: nat :: i in s <==> a <= i < a + n
    ensures |s| == n
    decreases n
  {
    if n == 0 {
      assert s == {};
    } else {
      RangeSize(s - {a + n - 1}, a, n - 1);
    }
  }

  // ----- an hour that is not the window's

  /** A registration, and a resend at each of these times. */
  function Resends(times: seq<Time>): seq<Step> {
    if times == [] then [Register(0.0, "000000")]
    else Resends(times[..|times| - 1]) + [Resend(times[|times| - 1], times[|times| - 1], "000000")]
  }

  /** Resends that the limits let through are all sent. */
  lemma OneResend(times: seq<Time>, user: User, now: Time)
    requires Run(Resends(times)) == Some(user) && !user.verified && CanSend(user, now)
    ensures var user' := Issue(user, now, "000000");
            Run(Resends(times + [now])) == Some(user') && !user'.verified
            && SentTimes(Resends(times + [now])) == SentTimes(Resends(times)) + [now]
  {
    var before, after := Resends(times), Resends(times + [now]);
    assert (times + [now])[..|times|] == times;
    assert after == before + [Resend(now, now, "000000")];
    assert after[..|before|] == before;
  }

  lemma {:induction false} ResendsOrdered(times: seq<Time>)
    ensures Clock(Resends(times))
  {
    if times != [] {
      ResendsOrdered(times[..|times| - 1]);
    }
  }

  /** The limit is one of fixed windows: the four sends left of one window and the five
      of the next can fall within one hour. So the bound above is the best there is. */
  lemma {:induction false} NineInAnHour()
    ensures var steps := Resends([3360.0, 3420.0, 3480.0, 3540.0, 3600.0, 3660.0, 3720.0, 3780.0, 3840.0]);
            Clock(steps) && SendsIn(steps, 3360.0) == 2 * MAX_SENDS - 1 > MAX_SENDS
  {
    var goal := [3360.0, 3420.0, 3480.0, 3540.0, 3600.0, 3660.0, 3720.0, 3780.0, 3840.0];
    var user := Issue(NEW_USER, 0.0, "000000");
    hide Resends, SentTimes, Run, Clock;
    FirstOnly();
    var done := 0;
    while done < 9
      invariant 0 <= done <= 9
      invariant Run(Resends(goal[..done])) == Some(user) && !user.verified
      invariant SentTimes(Resends(goal[..done])) == [0.0] + goal[..done]
      invariant user.sentAt == Some(if done == 0 then 0.0 else goal[done - 1])
      invariant user.windowStart == Some(if done < 5 then 0.0 else 3600.0)
      invariant user.sendCount == if done < 5 then done + 1 else done - 4
    {
      OneResend(goal[..done], user, goal[done]);
      assert goal[..done + 1] == goal[..done] + [goal[done]];
      user := Issue(user, goal[done], "000000");
      done := done + 1;
    }
    assert goal[..9] == goal;
    ResendsOrdered(goal);
    NineIn(goal, SentTimes(Resends(goal)));
  }

  lemma NineIn(goal: seq<Time>, sent: seq<Time>)
    requires |goal| == 9 && sent == [0.0] + goal
    requires forall i :: 0 <= i < 9 ==> 3360.0 <= goal[i] < 3360.0 + HOUR
    ensures |set i: nat | 0 <= i < |sent| && 3360.0 <= sent[i] < 3360.0 + HOUR| == 9
  {
    assert (set i: nat | 0 <= i < |sent| && 3360.0 <= sent[i] < 3360.0 + HOUR) == {1, 2, 3, 4, 5, 6, 7, 8, 9};
  }

  lemma FirstOnly()
    ensures Run(Resends([])) == Some(Issue(NEW_USER, 0.0, "000000")) && SentTimes(Resends([])) == [0.0]
  {
    var steps := Resends([]);
    assert steps[..0] == [];
  }
}
