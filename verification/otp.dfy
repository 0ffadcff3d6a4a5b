// One-time codes: `sendOtp` and `verifyOtp` of src/modules/auth/auth.service.ts, and the
// phone change of src/modules/users/users.service.ts that consumes the same rows.
// Each call is one atomic step of a clock that never goes back.
module Otp {
  import opened Wrappers
  import opened FiniteSets
  import Phone

  const OTP_TTL_MS := 5 * 60 * 1000
  const OTP_MAX_REQUESTS_PER_WINDOW := 3

  datatype OtpRow = OtpRow(phone: string, code: string, createdAt: int, expiresAt: int, isUsed: bool,
                           failedAttempts: nat)

  /** `accepts(hash, code)` is the comparison of a stored hash with a provided code. */
  datatype Config = Config(maxFailedAttempts: int, accepts: (string, string) -> bool)

  /** A code is locked by its first failure when the configured limit is not positive. */
  function Limit(c: Config): nat {
    if c.maxFailedAttempts < 1 then 1 else c.maxFailedAttempts
  }

  // ---- Rows -------------------------------------------------------------------

  /** Rows of a phone created in the five minutes that end at `t`. */
  function Window(rows: seq<OtpRow>, phone: string, t: int): set<nat> {
    set i | 0 <= i < |rows| && rows[i].phone == phone && t - OTP_TTL_MS < rows[i].createdAt <= t
  }

  /** `count({ phone, createdAt: MoreThan(after) })` */
  function Recent(rows: seq<OtpRow>, phone: string, after: int): set<nat> {
    set i | 0 <= i < |rows| && rows[i].phone == phone && after < rows[i].createdAt
  }

  /** `update({ phone, isUsed: false }, { isUsed: true })` */
  function Supersede(rows: seq<OtpRow>, phone: string): (r: seq<OtpRow>)
    ensures |r| == |rows|
    ensures forall i :: 0 <= i < |rows| ==> r[i] == if rows[i].phone == phone then rows[i].(isUsed := true) else rows[i]
  {
    if rows == [] then []
    else [if rows[0].phone == phone then rows[0].(isUsed := true) else rows[0]] + Supersede(rows[1..], phone)
  }

  predicate Usable(row: OtpRow, phone: string, now: int) {
    row.phone == phone && !row.isUsed && row.expiresAt > now
  }

  /** The newest usable row: rows are in order of creation. */
  function FindOtp(rows: seq<OtpRow>, phone: string, now: int): (r: Option<nat>)
    ensures r.Some? ==> r.value < |rows| && Usable(rows[r.value], phone, now)
    ensures r.Some? ==> forall i :: r.value < i < |rows| ==> !Usable(rows[i], phone, now)
    ensures r.None? ==> forall i :: 0 <= i < |rows| ==> !Usable(rows[i], phone, now)
  {
    if rows == [] then None
    else if Usable(rows[|rows| - 1], phone, now) then Some(|rows| - 1)
    else FindOtp(rows[..|rows| - 1], phone, now)
  }

  function NewRow(phone: string, code: string, now: int): OtpRow {
    OtpRow(phone, code, now, now + OTP_TTL_MS, false, 0)
  }

  /** Issuing a code supersedes the phone's earlier ones. */
  function Sent(rows: seq<OtpRow>, phone: string, code: string, now: int): (r: seq<OtpRow>)
    ensures |r| == |rows| + 1 && r[|rows|] == NewRow(phone, code, now)
    ensures forall i :: 0 <= i < |rows| ==> r[i] == if rows[i].phone == phone then rows[i].(isUsed := true) else rows[i]
  {
    Supersede(rows, phone) + [NewRow(phone, code, now)]
  }

  /** What a comparison in `verifyOtp` does to its row. */
  function Compared(row: OtpRow, accepted: bool, c: Config): OtpRow {
    if accepted then row.(isUsed := true)
    else
      var failed := row.failedAttempts + 1;
      row.(failedAttempts := failed, isUsed := row.isUsed || failed >= c.maxFailedAttempts)
  }

  // ---- Runs -------------------------------------------------------------------

  /**
   * One comparison of a provided code with a row. `counted` unless a phone change made it
   * and it failed: that leaves no trace on the row.
   */
  datatype Attempt = Attempt(row: nat, at: int, accepted: bool, counted: bool)

  datatype State = State(rows: seq<OtpRow>, log: seq<Attempt>, clock: int)

  datatype Event =
    | SendOtp(phone: string, code: string)
    | VerifyOtp(phone: string, code: string)
    | ChangePhone(phone: string, code: string)

  datatype Call = Call(at: int, event: Event)

  function Send(s: State, phone: string, code: string, now: int): State {
    if |Recent(s.rows, phone, now - OTP_TTL_MS)| >= OTP_MAX_REQUESTS_PER_WINDOW then s.(clock := now)
    else State(Sent(s.rows, phone, code, now), s.log, now)
  }

  function Verify(s: State, phone: string, code: string, now: int, c: Config): State {
    var found := FindOtp(s.rows, phone, now);
    if found.None? then s.(clock := now)
    else
      var row := s.rows[found.value];
      var accepted := c.accepts(row.code, code);
      State(s.rows[found.value := Compared(row, accepted, c)], s.log + [Attempt(found.value, now, accepted, true)], now)
  }

  /** The phone change uses up a matching code; a failure is not counted on the row. */
  function Change(s: State, phone: string, code: string, now: int, c: Config): State {
    var found := FindOtp(s.rows, phone, now);
    if found.None? then s.(clock := now)
    else
      var row := s.rows[found.value];
      var accepted := c.accepts(row.code, code);
      State(if accepted then s.rows[found.value := row.(isUsed := true)] else s.rows,
            s.log + [Attempt(found.value, now, accepted, accepted)], now)
  }

  function Step(s: State, call: Call, c: Config): State {
    var phone := Phone.NormalizeThaiPhoneToLocal(call.event.phone);
    match call.event
    case SendOtp(_, code) => Send(s, phone, code, call.at)
    case VerifyOtp(_, code) => Verify(s, phone, code, call.at, c)
    case ChangePhone(_, code) => Change(s, phone, code, call.at, c)
  }

  /** The state after a run of calls from an empty table. */
  function Run(calls: seq<Call>, c: Config): State {
    if calls == [] then State([], [], 0)
    else Step(Run(calls[..|calls| - 1], c), calls[|calls| - 1], c)
  }

  /** The clock never goes back along a run. */
  predicate Monotone(calls: seq<Call>) {
    (forall i :: 0 <= i < |calls| ==> 0 <= calls[i].at)
    && forall i, j :: 0 <= i < j < |calls| ==> calls[i].at <= calls[j].at
  }

  // ---- The invariant ----------------------------------------------------------

  /** The comparisons with a row, but for the failed ones of phone changes. */
  function CountOn(log: seq<Attempt>, row: nat): nat {
    if log == [] then 0
    else
      var last := log[|log| - 1];
      CountOn(log[..|log| - 1], row) + if last.row == row && last.counted then 1 else 0
  }

  function AcceptedOn(log: seq<Attempt>, row: nat): nat {
    if log == [] then 0
    else
      var last := log[|log| - 1];
      AcceptedOn(log[..|log| - 1], row) + if last.row == row && last.accepted then 1 else 0
  }

  predicate InOrder(rows: seq<OtpRow>, clock: int) {
    && (forall i :: 0 <= i < |rows| ==>
          rows[i].createdAt <= clock && rows[i].expiresAt == rows[i].createdAt + OTP_TTL_MS)
    && (forall i, j :: 0 <= i < j < |rows| ==> rows[i].createdAt <= rows[j].createdAt)
  }

  /** Only the newest row of a phone may be unused. */
  predicate OnlyNewestUnused(rows: seq<OtpRow>) {
    forall i, j :: 0 <= i < j < |rows| && rows[i].phone == rows[j].phone ==> rows[i].isUsed
  }

  ghost predicate RateLimited(rows: seq<OtpRow>) {
    forall phone: string, t: int :: |Window(rows, phone, t)| <= OTP_MAX_REQUESTS_PER_WINDOW
  }

  predicate RowCounts(row: OtpRow, counted: nat, accepted: nat, limit: nat) {
    && accepted <= 1 && counted <= limit
    && (!row.isUsed ==> accepted == 0 && counted == row.failedAttempts < limit)
  }

  predicate Counted(s: State, c: Config) {
    forall i :: 0 <= i < |s.rows| ==> RowCounts(s.rows[i], CountOn(s.log, i), AcceptedOn(s.log, i), Limit(c))
  }

  predicate Superseded(rows: seq<OtpRow>, i: nat) {
    exists j :: i < j < |rows| && i < |rows| && rows[j].phone == rows[i].phone
  }

  /** A used row was accepted, failed the limit, or was superseded. */
  predicate UsedForReason(rows: seq<OtpRow>, log: seq<Attempt>, c: Config) {
    forall i :: 0 <= i < |rows| && rows[i].isUsed ==>
      AcceptedOn(log, i) == 1 || CountOn(log, i) == Limit(c) || Superseded(rows, i)
  }

  /** Every comparison was made on a live row that was then the newest of its phone. */
  predicate AttemptOnNewest(rows: seq<OtpRow>, a: Attempt) {
    && a.row < |rows|
    && rows[a.row].createdAt <= a.at < rows[a.row].expiresAt
    && forall j :: a.row < j < |rows| && rows[j].phone == rows[a.row].phone ==> a.at <= rows[j].createdAt
  }

  predicate Logged(s: State) {
    forall k :: 0 <= k < |s.log| ==> s.log[k].at <= s.clock && AttemptOnNewest(s.rows, s.log[k])
  }

  ghost predicate Inv(s: State, c: Config) {
    && InOrder(s.rows, s.clock) && OnlyNewestUnused(s.rows) && RateLimited(s.rows)
    && Counted(s, c) && UsedForReason(s.rows, s.log, c) && Logged(s)
  }

  // ---- Sending ----------------------------------------------------------------

  /** A window that takes in the new row reaches back no further than the limit looked. */
  lemma WindowWithNewRow(rows: seq<OtpRow>, phone: string, code: string, now: int, t: int)
    requires t >= now
    ensures Window(Sent(rows, phone, code, now), phone, t) <= Recent(rows, phone, now - OTP_TTL_MS) + {|rows|}
  {
    hide Sent;
  }

  lemma WindowWithoutNewRow(rows: seq<OtpRow>, phone: string, code: string, now: int, p: string, t: int)
    requires p != phone || t < now
    ensures Window(Sent(rows, phone, code, now), p, t) <= Window(rows, p, t)
  {
    hide Sent;
  }

  lemma WindowAfterSend(rows: seq<OtpRow>, phone: string, code: string, now: int, p: string, t: int)
    requires RateLimited(rows)
    requires |Recent(rows, phone, now - OTP_TTL_MS)| < OTP_MAX_REQUESTS_PER_WINDOW
    ensures |Window(Sent(rows, phone, code, now), p, t)| <= OTP_MAX_REQUESTS_PER_WINDOW
  {
    hide Window, Recent, Sent;
    var w := Window(Sent(rows, phone, code, now), p, t);
    if p == phone && t >= now {
      var r := Recent(rows, phone, now - OTP_TTL_MS);
      WindowWithNewRow(rows, phone, code, now, t);
      SubsetSize(w, r + {|rows|});
      UnionSize(r, {|rows|});
    } else {
      WindowWithoutNewRow(rows, phone, code, now, p, t);
      SubsetSize(w, Window(rows, p, t));
    }
  }

  /** The code just issued is the one that is looked up until it expires. */
  lemma IssuedCodeIsFound(s: State, phone: string, code: string, now: int, later: int)
    requires |Recent(s.rows, phone, now - OTP_TTL_MS)| < OTP_MAX_REQUESTS_PER_WINDOW
    ensures FindOtp(Send(s, phone, code, now).rows, phone, later)
         == if later < now + 300_000 then Some(|s.rows|) else None
    ensures Send(s, phone, code, now).rows[|s.rows|].code == code
  {
  }

  lemma AttemptsNameRows(log: seq<Attempt>, n: nat)
    requires forall k :: 0 <= k < |log| ==> log[k].row < n
    ensures CountOn(log, n) == 0 && AcceptedOn(log, n) == 0
  {
  }

  lemma ReasonsAfterSend(s: State, phone: string, code: string, now: int, c: Config)
    requires UsedForReason(s.rows, s.log, c)
    ensures UsedForReason(Sent(s.rows, phone, code, now), s.log, c)
  {
    hide CountOn, AcceptedOn, Limit, Sent;
    var after := Sent(s.rows, phone, code, now);
    forall i | 0 <= i < |after| && after[i].isUsed
      ensures AcceptedOn(s.log, i) == 1 || CountOn(s.log, i) == Limit(c) || Superseded(after, i)
    {
      if s.rows[i].phone == phone {
        assert after[|s.rows|].phone == after[i].phone;
      } else if Superseded(s.rows, i) {
        var j :| i < j < |s.rows| && s.rows[j].phone == s.rows[i].phone;
        assert after[j].phone == after[i].phone;
      }
    }
  }

  lemma SendKeepsInv(s: State, phone: string, code: string, now: int, c: Config)
    requires Inv(s, c) && s.clock <= now
    ensures Inv(Send(s, phone, code, now), c)
  {
    hide Window, Recent, CountOn, AcceptedOn, Sent, UsedForReason;
    if |Recent(s.rows, phone, now - OTP_TTL_MS)| < OTP_MAX_REQUESTS_PER_WINDOW {
      var after := Sent(s.rows, phone, code, now);
      forall p, t ensures |Window(after, p, t)| <= OTP_MAX_REQUESTS_PER_WINDOW {
        WindowAfterSend(s.rows, phone, code, now, p, t);
      }
      AttemptsNameRows(s.log, |s.rows|);
      ReasonsAfterSend(s, phone, code, now, c);
    }
  }

  // ---- Comparing --------------------------------------------------------------

  /** A row whose phone and times stay leaves every window as it was. */
  lemma SameWindows(rows: seq<OtpRow>, i: nat, row: OtpRow)
    requires i < |rows| && RateLimited(rows)
    requires row.phone == rows[i].phone && row.createdAt == rows[i].createdAt
    ensures RateLimited(rows[i := row])
  {
    var after := rows[i := row];
    forall p, t ensures |Window(after, p, t)| <= OTP_MAX_REQUESTS_PER_WINDOW {
      assert Window(after, p, t) == Window(rows, p, t);
    }
  }

  lemma LogStep(log: seq<Attempt>, a: Attempt, row: nat)
    ensures CountOn(log + [a], row) == CountOn(log, row) + if a.row == row && a.counted then 1 else 0
    ensures AcceptedOn(log + [a], row) == AcceptedOn(log, row) + if a.row == row && a.accepted then 1 else 0
  {
    assert (log + [a])[..|log|] == log;
  }

  /** One comparison on the found row, recorded, keeps the invariant. */
  lemma ComparisonKeepsInv(s: State, i: nat, row: OtpRow, a: Attempt, c: Config)
    requires Inv(s, c) && s.clock <= a.at
    requires i < |s.rows| && !s.rows[i].isUsed && a.at < s.rows[i].expiresAt && a.row == i
    requires row == s.rows[i].(isUsed := row.isUsed, failedAttempts := row.failedAttempts)
    requires RowCounts(row, s.rows[i].failedAttempts + (if a.counted then 1 else 0),
                       if a.accepted then 1 else 0, Limit(c))
    requires row.isUsed ==> a.accepted || s.rows[i].failedAttempts + (if a.counted then 1 else 0) == Limit(c)
    ensures Inv(State(s.rows[i := row], s.log + [a], a.at), c)
  {
    hide Window, CountOn, AcceptedOn;
    var after := State(s.rows[i := row], s.log + [a], a.at);
    SameWindows(s.rows, i, row);
    assert Counted(after, c) by {
      hide InOrder, OnlyNewestUnused, RateLimited, Logged;
      forall j | 0 <= j < |after.rows|
        ensures RowCounts(after.rows[j], CountOn(after.log, j), AcceptedOn(after.log, j), Limit(c))
      {
        LogStep(s.log, a, j);
        assert RowCounts(s.rows[j], CountOn(s.log, j), AcceptedOn(s.log, j), Limit(c));
      }
    }
    assert Logged(after) by { LoggedAfter(s, i, row, a, c); }
    assert UsedForReason(after.rows, after.log, c) by { ReasonsAfter(s, i, row, a, c); }
  }

  lemma ReasonsAfter(s: State, i: nat, row: OtpRow, a: Attempt, c: Config)
    requires Counted(s, c) && UsedForReason(s.rows, s.log, c)
    requires i < |s.rows| && !s.rows[i].isUsed && a.row == i && row.phone == s.rows[i].phone
    requires row.isUsed ==> a.accepted || s.rows[i].failedAttempts + (if a.counted then 1 else 0) == Limit(c)
    ensures UsedForReason(s.rows[i := row], s.log + [a], c)
  {
    hide CountOn, AcceptedOn, Limit;
    var after := State(s.rows[i := row], s.log + [a], a.at);
    forall j | 0 <= j < |after.rows| && after.rows[j].isUsed
      ensures AcceptedOn(after.log, j) == 1 || CountOn(after.log, j) == Limit(c) || Superseded(after.rows, j)
    {
      LogStep(s.log, a, j);
      assert RowCounts(s.rows[j], CountOn(s.log, j), AcceptedOn(s.log, j), Limit(c));
      if j != i && Superseded(s.rows, j) {
        var k :| j < k < |s.rows| && s.rows[k].phone == s.rows[j].phone;
        assert after.rows[k].phone == after.rows[j].phone;
      }
    }
  }

  lemma LoggedAfter(s: State, i: nat, row: OtpRow, a: Attempt, c: Config)
    requires InOrder(s.rows, s.clock) && OnlyNewestUnused(s.rows) && Logged(s) && s.clock <= a.at
    requires i < |s.rows| && !s.rows[i].isUsed && a.at < s.rows[i].expiresAt && a.row == i
    requires row == s.rows[i].(isUsed := row.isUsed, failedAttempts := row.failedAttempts)
    ensures Logged(State(s.rows[i := row], s.log + [a], a.at))
  {
    var after := State(s.rows[i := row], s.log + [a], a.at);
    assert forall j :: 0 <= j < |s.rows| ==>
        after.rows[j].phone == s.rows[j].phone && after.rows[j].createdAt == s.rows[j].createdAt
        && after.rows[j].expiresAt == s.rows[j].expiresAt;
    forall k | 0 <= k < |after.log| ensures after.log[k].at <= a.at && AttemptOnNewest(after.rows, after.log[k]) {
      if k < |s.log| {
        assert after.log[k] == s.log[k] && AttemptOnNewest(s.rows, s.log[k]);
      }
    }
  }

  lemma VerifyKeepsInv(s: State, phone: string, code: string, now: int, c: Config)
    requires Inv(s, c) && s.clock <= now
    ensures Inv(Verify(s, phone, code, now, c), c)
  {
    hide Window, CountOn, AcceptedOn;
    var found := FindOtp(s.rows, phone, now);
    if found.Some? {
      var row := s.rows[found.value];
      var accepted := c.accepts(row.code, code);
      assert RowCounts(row, CountOn(s.log, found.value), AcceptedOn(s.log, found.value), Limit(c));
      ComparisonKeepsInv(s, found.value, Compared(row, accepted, c), Attempt(found.value, now, accepted, true), c);
    }
  }

  lemma ChangeKeepsInv(s: State, phone: string, code: string, now: int, c: Config)
    requires Inv(s, c) && s.clock <= now
    ensures Inv(Change(s, phone, code, now, c), c)
  {
    hide Window, CountOn, AcceptedOn;
    var found := FindOtp(s.rows, phone, now);
    if found.Some? {
      var row := s.rows[found.value];
      var accepted := c.accepts(row.code, code);
      assert RowCounts(row, CountOn(s.log, found.value), AcceptedOn(s.log, found.value), Limit(c));
      var next := if accepted then row.(isUsed := true) else row;
      assert s.rows[found.value := row] == s.rows;
      ComparisonKeepsInv(s, found.value, next, Attempt(found.value, now, accepted, accepted), c);
    }
  }

  lemma {:induction false} RunKeepsInv(calls: seq<Call>, c: Config)
    requires Monotone(calls)
    ensures Inv(Run(calls, c), c)
    ensures 0 <= Run(calls, c).clock && (calls != [] ==> Run(calls, c).clock == calls[|calls| - 1].at)
  {
    hide Inv;
    if calls == [] {
      EmptyInv(c);
    } else {
      var before, last := calls[..|calls| - 1], calls[|calls| - 1];
      RunKeepsInv(before, c);
      var s, phone := Run(before, c), Phone.NormalizeThaiPhoneToLocal(last.event.phone);
      match last.event
      case SendOtp(_, code) => SendKeepsInv(s, phone, code, last.at, c);
      case VerifyOtp(_, code) => VerifyKeepsInv(s, phone, code, last.at, c);
      case ChangePhone(_, code) => ChangeKeepsInv(s, phone, code, last.at, c);
    }
  }

  lemma EmptyInv(c: Config)
    ensures Inv(State([], [], 0), c)
  {
    forall p, t: int ensures |Window([], p, t)| <= OTP_MAX_REQUESTS_PER_WINDOW {
      assert Window([], p, t) == {};
    }
  }

  // ---- Bounds over whole runs -------------------------------------------------

  /** At every point of every run a phone has at most one unused code. */
  lemma {:induction false} AtMostOneUnused(calls: seq<Call>, c: Config, i: nat, j: nat)
    requires Monotone(calls)
    requires i < |Run(calls, c).rows| && j < |Run(calls, c).rows|
    requires Run(calls, c).rows[i].phone == Run(calls, c).rows[j].phone
    requires !Run(calls, c).rows[i].isUsed && !Run(calls, c).rows[j].isUsed
    ensures i == j
  {
    hide Run, RateLimited, Counted, Logged;
    RunKeepsInv(calls, c);
  }

  /** At most three codes are issued to a phone in any five minutes. */
  lemma AtMostThreeCodes(calls: seq<Call>, c: Config, phone: string, t: int)
    requires Monotone(calls)
    ensures var rows := Run(calls, c).rows;
            |set i | 0 <= i < |rows| && rows[i].phone == phone && t - 300_000 < rows[i].createdAt <= t| <= 3
  {
    hide Run, Counted, Logged;
    RunKeepsInv(calls, c);
    assert |Window(Run(calls, c).rows, phone, t)| <= 3;
  }

  /** All comparisons with a row, whoever made them. */
  function ComparedOn(log: seq<Attempt>, row: nat): nat {
    if log == [] then 0
    else ComparedOn(log[..|log| - 1], row) + if log[|log| - 1].row == row then 1 else 0
  }

  /** The failed comparisons of phone changes with a row. */
  function FailedChangesOn(log: seq<Attempt>, row: nat): nat {
    if log == [] then 0
    else
      var last := log[|log| - 1];
      FailedChangesOn(log[..|log| - 1], row) + if last.row == row && !last.counted then 1 else 0
  }

  lemma {:induction false} ComparedSplits(log: seq<Attempt>, row: nat)
    ensures ComparedOn(log, row) == CountOn(log, row) + FailedChangesOn(log, row)
  {
    if log != [] {
      ComparedSplits(log[..|log| - 1], row);
    }
  }

  /**
   * A code is accepted at most once, by either path. The limit bounds all comparisons
   * with it but those of phone changes that failed, which come on top.
   */
  lemma {:induction false} CodeIsSingleUse(calls: seq<Call>, c: Config, i: nat)
    requires Monotone(calls) && i < |Run(calls, c).rows|
    ensures AcceptedOn(Run(calls, c).log, i) <= 1
    ensures ComparedOn(Run(calls, c).log, i) <= Limit(c) + FailedChangesOn(Run(calls, c).log, i)
  {
    hide Run, RateLimited, Logged, CountOn, ComparedOn, FailedChangesOn;
    RunKeepsInv(calls, c);
    ComparedSplits(Run(calls, c).log, i);
    assert RowCounts(Run(calls, c).rows[i], CountOn(Run(calls, c).log, i), AcceptedOn(Run(calls, c).log, i), Limit(c));
  }

  /** A phone change is tried with a code that the row it finds does not accept. */
  predicate FailsChange(s: State, call: Call, c: Config) {
    && call.event.ChangePhone?
    && var found := FindOtp(s.rows, Phone.NormalizeThaiPhoneToLocal(call.event.phone), call.at);
       found.Some? && !c.accepts(s.rows[found.value].code, call.event.code)
  }

  /** On a run in which no phone change fails, the limit bounds all comparisons with a code. */
  lemma {:induction false} LimitBoundsAll(calls: seq<Call>, c: Config, i: nat)
    requires Monotone(calls) && i < |Run(calls, c).rows|
    requires forall k :: 0 <= k < |calls| ==> !FailsChange(Run(calls[..k], c), calls[k], c)
    ensures ComparedOn(Run(calls, c).log, i) <= Limit(c)
  {
    CodeIsSingleUse(calls, c, i);
    NoChangeFailed(calls, c, i);
  }

  lemma {:induction false} NoChangeFailed(calls: seq<Call>, c: Config, row: nat)
    requires forall k :: 0 <= k < |calls| ==> !FailsChange(Run(calls[..k], c), calls[k], c)
    ensures FailedChangesOn(Run(calls, c).log, row) == 0
  {
    hide Step, FailsChange, FailedChangesOn;
    if calls == [] {
      NoneFailed(row);
    } else {
      var n := |calls| - 1;
      var before := calls[..n];
      assert forall k :: 0 <= k < n ==> before[..k] == calls[..k] && before[k] == calls[k];
      NoChangeFailed(before, c, row);
      assert !FailsChange(Run(before, c), calls[n], c);
      StepLogs(Run(before, c), calls[n], c, row);
    }
  }

  lemma NoneFailed(row: nat)
    ensures FailedChangesOn([], row) == 0
  {
  }

  /** A call that is no failing phone change adds no failed comparison. */
  lemma StepLogs(s: State, call: Call, c: Config, row: nat)
    requires !FailsChange(s, call, c)
    ensures FailedChangesOn(Step(s, call, c).log, row) == FailedChangesOn(s.log, row)
  {
    hide Sent, Recent, Phone.NormalizeThaiPhoneToLocal;
    var log := Step(s, call, c).log;
    if |log| > |s.log| {
      assert log[..|log| - 1] == s.log;
    }
  }

  /** One code, and phone changes tried with a wrong one. */
  function SendThenChanges(phone: string, code: string, wrong: string, n: nat): seq<Call> {
    if n == 0 then [Call(0, Event.SendOtp(phone, code))]
    else SendThenChanges(phone, code, wrong, n - 1) + [Call(0, Event.ChangePhone(phone, wrong))]
  }

  /** No bound holds with phone changes: each wrong code is compared and leaves the row as it was. */
  lemma {:induction false} ChangesCompareWithoutBound(phone: string, code: string, wrong: string, n: nat, c: Config)
    requires !c.accepts(code, wrong)
    ensures var calls := SendThenChanges(phone, code, wrong, n); var s := Run(calls, c);
            && Monotone(calls) && (forall k :: 0 <= k < |calls| ==> calls[k].at == 0)
            && ComparedOn(s.log, 0) == n && FailedChangesOn(s.log, 0) == n
            && s.rows == [NewRow(Phone.NormalizeThaiPhoneToLocal(phone), code, 0)] && s.clock == 0
  {
    hide Phone.NormalizeThaiPhoneToLocal, Step, ComparedOn, FailedChangesOn;
    var calls := SendThenChanges(phone, code, wrong, n);
    if n == 0 {
      assert calls[..0] == [];
      FirstSend(phone, code, c);
    } else {
      ChangesCompareWithoutBound(phone, code, wrong, n - 1, c);
      var before := SendThenChanges(phone, code, wrong, n - 1);
      assert calls[..|calls| - 1] == before;
      WrongChange(Run(before, c), phone, code, wrong, c);
    }
  }

  lemma FirstSend(phone: string, code: string, c: Config)
    ensures var s := Step(State([], [], 0), Call(0, Event.SendOtp(phone, code)), c);
            && s.rows == [NewRow(Phone.NormalizeThaiPhoneToLocal(phone), code, 0)] && s.clock == 0
            && ComparedOn(s.log, 0) == 0 && FailedChangesOn(s.log, 0) == 0
  {
    hide Phone.NormalizeThaiPhoneToLocal;
    NothingRecent(Phone.NormalizeThaiPhoneToLocal(phone));
  }

  lemma WrongChange(s: State, phone: string, code: string, wrong: string, c: Config)
    requires s.rows == [NewRow(Phone.NormalizeThaiPhoneToLocal(phone), code, 0)] && s.clock == 0
            && !c.accepts(code, wrong)
    ensures var after := Step(s, Call(0, Event.ChangePhone(phone, wrong)), c);
            && after.rows == s.rows && after.clock == 0
            && ComparedOn(after.log, 0) == ComparedOn(s.log, 0) + 1
            && FailedChangesOn(after.log, 0) == FailedChangesOn(s.log, 0) + 1
  {
    hide Phone.NormalizeThaiPhoneToLocal;
    var log := s.log + [Attempt(0, 0, false, false)];
    assert log[..|s.log|] == s.log;
    assert FindOtp(s.rows, s.rows[0].phone, 0) == Some(0);
  }

  lemma NothingRecent(phone: string)
    ensures Recent([], phone, 0 - OTP_TTL_MS) == {} && Supersede([], phone) == []
  {
  }

  /**
   * At every point of every run, the code that a verification will look at is exactly
   * this: the last one issued to the phone, less than five minutes old, never accepted,
   * and compared fewer times than the limit, which is at least one.
   */
  lemma UsableCodeIff(calls: seq<Call>, c: Config, phone: string, now: int, i: nat)
    requires Monotone(calls) && i < |Run(calls, c).rows|
    ensures var s := Run(calls, c);
            FindOtp(s.rows, phone, now) == Some(i)
            <==> && s.rows[i].phone == phone && !Superseded(s.rows, i) && now < s.rows[i].createdAt + 300_000
                 && AcceptedOn(s.log, i) == 0
                 && CountOn(s.log, i) < if c.maxFailedAttempts < 1 then 1 else c.maxFailedAttempts
  {
    hide Run, RateLimited, Logged, CountOn, AcceptedOn;
    RunKeepsInv(calls, c);
    var s := Run(calls, c);
    assert RowCounts(s.rows[i], CountOn(s.log, i), AcceptedOn(s.log, i), Limit(c));
    UsableIsNewest(s.rows, phone, now, i);
  }

  lemma UsableIsNewest(rows: seq<OtpRow>, phone: string, now: int, i: nat)
    requires OnlyNewestUnused(rows) && i < |rows|
    ensures FindOtp(rows, phone, now) == Some(i) <==> Usable(rows[i], phone, now)
    ensures !rows[i].isUsed ==> !Superseded(rows, i)
  {
    hide OnlyNewestUnused;
    var found := FindOtp(rows, phone, now);
    if Usable(rows[i], phone, now) && found.Some? && found.value != i {
      assert false by { UnusedRowsAreOne(rows, i, found.value); }
    }
    if !rows[i].isUsed && Superseded(rows, i) {
      var j :| i < j < |rows| && rows[j].phone == rows[i].phone;
      assert OnlyNewestUnused(rows);
      EarlierIsUsed(rows, i, j);
    }
  }

  lemma EarlierIsUsed(rows: seq<OtpRow>, i: nat, j: nat)
    requires OnlyNewestUnused(rows) && i < j < |rows| && rows[i].phone == rows[j].phone
    ensures rows[i].isUsed
  {
  }

  lemma UnusedRowsAreOne(rows: seq<OtpRow>, i: nat, j: nat)
    requires OnlyNewestUnused(rows) && i < |rows| && j < |rows| && rows[i].phone == rows[j].phone
    requires !rows[i].isUsed && !rows[j].isUsed
    ensures i == j
  {
  }

  /** Comparisons for a phone in the five minutes from `w`, but for the failed ones of phone changes. */
  function ComparisonsIn(rows: seq<OtpRow>, log: seq<Attempt>, phone: string, w: int): nat {
    if log == [] then 0
    else
      var last := log[|log| - 1];
      ComparisonsIn(rows, log[..|log| - 1], phone, w)
      + if last.counted && last.row < |rows| && rows[last.row].phone == phone && w <= last.at < w + OTP_TTL_MS then 1
          else 0
  }

  /** All comparisons for a phone in the five minutes from `w`. */
  function AllComparisonsIn(rows: seq<OtpRow>, log: seq<Attempt>, phone: string, w: int): nat {
    if log == [] then 0
    else
      var last := log[|log| - 1];
      AllComparisonsIn(rows, log[..|log| - 1], phone, w)
      + if last.row < |rows| && rows[last.row].phone == phone && w <= last.at < w + OTP_TTL_MS then 1 else 0
  }

  function FailedChangesIn(rows: seq<OtpRow>, log: seq<Attempt>, phone: string, w: int): nat {
    if log == [] then 0
    else
      var last := log[|log| - 1];
      FailedChangesIn(rows, log[..|log| - 1], phone, w)
      + if !last.counted && last.row < |rows| && rows[last.row].phone == phone && w <= last.at < w + OTP_TTL_MS then 1
          else 0
  }

  lemma {:induction false} ComparisonsSplit(rows: seq<OtpRow>, log: seq<Attempt>, phone: string, w: int)
    ensures AllComparisonsIn(rows, log, phone, w)
            == ComparisonsIn(rows, log, phone, w) + FailedChangesIn(rows, log, phone, w)
  {
    if log != [] {
      ComparisonsSplit(rows, log[..|log| - 1], phone, w);
    }
  }

  function CountOnAny(log: seq<Attempt>, rows: set<nat>): nat {
    if log == [] then 0
    else
      var last := log[|log| - 1];
      CountOnAny(log[..|log| - 1], rows) + if last.row in rows && last.counted then 1 else 0
  }

  lemma {:induction false} CountOnAnySplits(log: seq<Attempt>, rows: set<nat>, r: nat)
    requires r in rows
    ensures CountOnAny(log, rows) == CountOnAny(log, rows - {r}) + CountOn(log, r)
  {
    if log != [] {
      CountOnAnySplits(log[..|log| - 1], rows, r);
    }
  }

  lemma {:induction false} CountOnNone(log: seq<Attempt>)
    ensures CountOnAny(log, {}) == 0
  {
    if log != [] {
      CountOnNone(log[..|log| - 1]);
    }
  }

  lemma {:induction false} CountOnAnyBound(log: seq<Attempt>, rows: set<nat>, limit: nat)
    requires forall r :: r in rows ==> CountOn(log, r) <= limit
    ensures CountOnAny(log, rows) <= |rows| * limit
    decreases |rows|
  {
    if rows == {} {
      CountOnNone(log);
    } else {
      var r :| r in rows;
      CountOnAnySplits(log, rows, r);
      CountOnAnyBound(log, rows - {r}, limit);
      assert |rows| * limit == |rows - {r}| * limit + limit;
    }
  }

  /** The rows that five minutes of comparisons can touch: those created in them, and the newest before. */
  function Touched(rows: seq<OtpRow>, phone: string, w: int): set<nat> {
    Window(rows, phone, w + OTP_TTL_MS - 1) + NewestBefore(rows, phone, w)
  }

  function NewestBefore(rows: seq<OtpRow>, phone: string, w: int): set<nat> {
    set i | 0 <= i < |rows| && rows[i].phone == phone && rows[i].createdAt < w
            && forall j :: i < j < |rows| && rows[j].phone == phone ==> w <= rows[j].createdAt
  }

  lemma NewestBeforeIsOne(rows: seq<OtpRow>, phone: string, w: int)
    ensures |NewestBefore(rows, phone, w)| <= 1
  {
    var s := NewestBefore(rows, phone, w);
    if i :| i in s {
      assert s <= {i};
      SubsetSize(s, {i});
    }
  }

  lemma {:induction false} ComparisonsTouch(rows: seq<OtpRow>, log: seq<Attempt>, phone: string, w: int)
    requires forall k :: 0 <= k < |log| ==> AttemptOnNewest(rows, log[k])
    ensures ComparisonsIn(rows, log, phone, w) <= CountOnAny(log, Touched(rows, phone, w))
  {
    if log != [] {
      var last := log[|log| - 1];
      ComparisonsTouch(rows, log[..|log| - 1], phone, w);
      assert AttemptOnNewest(rows, last);
    }
  }

  /**
   * In any five minutes at most four codes of a phone can be compared, so there are at
   * most four times `Limit` comparisons for it, and the failed ones of phone changes.
   */
  lemma {:induction false} ComparisonsAreBounded(calls: seq<Call>, c: Config, phone: string, w: int)
    requires Monotone(calls)
    ensures var s := Run(calls, c);
            AllComparisonsIn(s.rows, s.log, phone, w) <= 4 * Limit(c) + FailedChangesIn(s.rows, s.log, phone, w)
  {
    hide Run, CountOn, CountOnAny, ComparisonsIn, AcceptedOn, Window, NewestBefore, AllComparisonsIn, FailedChangesIn;
    var s := Run(calls, c);
    ComparisonsSplit(s.rows, s.log, phone, w);
    RunKeepsInv(calls, c);
    ComparisonsTouch(s.rows, s.log, phone, w);
    var touched := Touched(s.rows, phone, w);
    TouchedAreRows(s.rows, phone, w);
    forall r | r in touched ensures CountOn(s.log, r) <= Limit(c) {
      assert RowCounts(s.rows[r], CountOn(s.log, r), AcceptedOn(s.log, r), Limit(c));
    }
    CountOnAnyBound(s.log, touched, Limit(c));
    assert |Window(s.rows, phone, w + OTP_TTL_MS - 1)| <= 3;
    NewestBeforeIsOne(s.rows, phone, w);
    UnionSize(Window(s.rows, phone, w + OTP_TTL_MS - 1), NewestBefore(s.rows, phone, w));
    assert |touched| * Limit(c) <= 4 * Limit(c);
  }

  lemma TouchedAreRows(rows: seq<OtpRow>, phone: string, w: int)
    ensures forall r :: r in Touched(rows, phone, w) ==> r < |rows|
  {
  }

  // ---- The bound is reached ---------------------------------------------------

  /** Further calls: one code, and `n` verifications of it with a wrong one. */
  function Burst(calls: seq<Call>, phone: string, code: string, wrong: string, sentAt: int, at: int, n: nat)
    : seq<Call>
  {
    if n == 0 then calls + [Call(sentAt, Event.SendOtp(phone, code))]
    else Burst(calls, phone, code, wrong, sentAt, at, n - 1) + [Call(at, Event.VerifyOtp(phone, wrong))]
  }

  /** Codes sent just before five minutes, twice at their start and at their end, each tried `n` times in them. */
  function FullWindow(phone: string, code: string, wrong: string, w: int, n: nat): seq<Call> {
    var first := Burst([], phone, code, wrong, w - 1, w, n);
    var second := Burst(first, phone, code, wrong, w, w, n);
    var third := Burst(second, phone, code, wrong, w + 1, w + 1, n);
    Burst(third, phone, code, wrong, w + OTP_TTL_MS - 1, w + OTP_TTL_MS - 1, n)
  }

  /** All rows are of one phone, and all of the `n` comparisons were counted and made in the five minutes from `w`. */
  predicate Busy(s: State, phone: string, w: int, n: nat) {
    && (forall i :: 0 <= i < |s.rows| ==> s.rows[i].phone == phone)
    && |s.log| == n
    && forall k :: 0 <= k < n ==>
         s.log[k].counted && s.log[k].row < |s.rows| && w <= s.log[k].at < w + OTP_TTL_MS
  }

  /** One more row, of a code that was tried `n` times in vain. */
  predicate AfterBurst(s: State, after: State, phone: string, code: string, sentAt: int, n: nat, c: Config) {
    && |after.rows| == |s.rows| + 1
    && (forall i :: 0 <= i < |s.rows| ==> after.rows[i].createdAt == s.rows[i].createdAt)
    && after.rows[|s.rows|]
       == NewRow(phone, code, sentAt).(failedAttempts := n, isUsed := n > 0 && n >= c.maxFailedAttempts)
  }

  lemma SendStarts(s: State, phone: string, code: string, sentAt: int, w: int, m: nat, c: Config)
    requires Busy(s, phone, w, m) && |Recent(s.rows, phone, sentAt - OTP_TTL_MS)| < OTP_MAX_REQUESTS_PER_WINDOW
    ensures var after := Send(s, phone, code, sentAt);
            AfterBurst(s, after, phone, code, sentAt, 0, c) && Busy(after, phone, w, m)
  {
    hide Recent, Sent;
  }

  lemma WrongVerify(s: State, mid: State, phone: string, code: string, wrong: string, sentAt: int, at: int, w: int,
                    m: nat, n: nat, c: Config)
    requires AfterBurst(s, mid, phone, code, sentAt, n, c) && Busy(mid, phone, w, m)
    requires !c.accepts(code, wrong) && n < Limit(c)
    requires sentAt <= at < sentAt + OTP_TTL_MS && w <= at < w + OTP_TTL_MS
    ensures var after := Verify(mid, phone, wrong, at, c);
            AfterBurst(s, after, phone, code, sentAt, n + 1, c) && Busy(after, phone, w, m + 1)
  {
    assert FindOtp(mid.rows, phone, at) == Some(|s.rows|);
  }

  lemma {:induction false} BurstCompares(calls: seq<Call>, phone: string, code: string, wrong: string, sentAt: int,
                                         at: int, w: int, m: nat, n: nat, c: Config)
    requires !c.accepts(code, wrong) && n <= Limit(c)
    requires sentAt <= at < sentAt + OTP_TTL_MS && w <= at < w + OTP_TTL_MS
    requires var local := Phone.NormalizeThaiPhoneToLocal(phone); var s := Run(calls, c);
             Busy(s, local, w, m) && |Recent(s.rows, local, sentAt - OTP_TTL_MS)| < OTP_MAX_REQUESTS_PER_WINDOW
    ensures var local := Phone.NormalizeThaiPhoneToLocal(phone);
            var after := Run(Burst(calls, phone, code, wrong, sentAt, at, n), c);
            AfterBurst(Run(calls, c), after, local, code, sentAt, n, c) && Busy(after, local, w, m + n)
  {
    hide Phone.NormalizeThaiPhoneToLocal, Busy, AfterBurst, Recent, Send, Verify, Limit;
    var local := Phone.NormalizeThaiPhoneToLocal(phone);
    var burst := Burst(calls, phone, code, wrong, sentAt, at, n);
    if n == 0 {
      assert burst[..|burst| - 1] == calls;
      SendStarts(Run(calls, c), local, code, sentAt, w, m, c);
    } else {
      var before := Burst(calls, phone, code, wrong, sentAt, at, n - 1);
      assert burst[..|burst| - 1] == before;
      BurstCompares(calls, phone, code, wrong, sentAt, at, w, m, n - 1, c);
      WrongVerify(Run(calls, c), Run(before, c), local, code, wrong, sentAt, at, w, m + n - 1, n - 1, c);
    }
  }

  predicate EndsBy(calls: seq<Call>, t: int) {
    Monotone(calls) && forall i :: 0 <= i < |calls| ==> calls[i].at <= t
  }

  lemma {:induction false} BurstIsMonotone(calls: seq<Call>, phone: string, code: string, wrong: string, sentAt: int,
                                           at: int, n: nat)
    requires EndsBy(calls, sentAt) && 0 <= sentAt <= at
    ensures EndsBy(Burst(calls, phone, code, wrong, sentAt, at, n), at)
  {
    if n > 0 {
      BurstIsMonotone(calls, phone, code, wrong, sentAt, at, n - 1);
    }
  }

  lemma {:induction false} BusyCounts(rows: seq<OtpRow>, log: seq<Attempt>, phone: string, w: int)
    requires Busy(State(rows, log, 0), phone, w, |log|)
    ensures AllComparisonsIn(rows, log, phone, w) == |log| && FailedChangesIn(rows, log, phone, w) == 0
  {
    if log != [] {
      BusyCounts(rows, log[..|log| - 1], phone, w);
    }
  }

  lemma FewRowsRecent(rows: seq<OtpRow>, phone: string, after: int)
    requires |rows| <= 3 && (|rows| == 3 ==> rows[0].createdAt <= after)
    ensures |Recent(rows, phone, after)| < OTP_MAX_REQUESTS_PER_WINDOW
  {
    var some := if |rows| == 3 then {1, 2} else {0, 1};
    SubsetSize(Recent(rows, phone, after), some);
  }

  lemma NothingBusy(phone: string, w: int)
    ensures Busy(State([], [], 0), phone, w, 0)
  {
  }

  /**
   * That bound is reached: wherever the five minutes lie and whatever the limit, some run
   * makes four times `Limit` comparisons for a phone in them, with no phone change.
   */
  lemma {:induction false} BoundIsReached(phone: string, code: string, wrong: string, w: int, c: Config)
    requires w >= 1 && !c.accepts(code, wrong)
    ensures var calls := FullWindow(phone, code, wrong, w, Limit(c)); var s := Run(calls, c);
            var local := Phone.NormalizeThaiPhoneToLocal(phone);
            && Monotone(calls)
            && AllComparisonsIn(s.rows, s.log, local, w) == 4 * Limit(c)
            && FailedChangesIn(s.rows, s.log, local, w) == 0
  {
    hide Phone.NormalizeThaiPhoneToLocal, Busy, Recent, Run, Burst, Limit, EndsBy, AllComparisonsIn, FailedChangesIn;
    var n, last, local := Limit(c), w + OTP_TTL_MS - 1, Phone.NormalizeThaiPhoneToLocal(phone);
    var first := Burst([], phone, code, wrong, w - 1, w, n);
    var second := Burst(first, phone, code, wrong, w, w, n);
    var third := Burst(second, phone, code, wrong, w + 1, w + 1, n);
    var calls := Burst(third, phone, code, wrong, last, last, n);
    FullWindowIsMonotone(phone, code, wrong, w, n);
    EmptyRun(c);
    NothingBusy(local, w);
    FewRowsRecent(Run([], c).rows, local, w - 1 - OTP_TTL_MS);
    BurstCompares([], phone, code, wrong, w - 1, w, w, 0, n, c);
    FewRowsRecent(Run(first, c).rows, local, w - OTP_TTL_MS);
    BurstCompares(first, phone, code, wrong, w, w, w, n, n, c);
    FewRowsRecent(Run(second, c).rows, local, w + 1 - OTP_TTL_MS);
    BurstCompares(second, phone, code, wrong, w + 1, w + 1, w, 2 * n, n, c);
    FewRowsRecent(Run(third, c).rows, local, last - OTP_TTL_MS);
    BurstCompares(third, phone, code, wrong, last, last, w, 3 * n, n, c);
    var s := Run(calls, c);
    BusyLog(s, local, w, 4 * n);
    BusyCounts(s.rows, s.log, local, w);
  }

  lemma EmptyRun(c: Config)
    ensures Run([], c) == State([], [], 0)
  {
  }

  lemma BusyLog(s: State, phone: string, w: int, n: nat)
    requires Busy(s, phone, w, n)
    ensures |s.log| == n && Busy(State(s.rows, s.log, 0), phone, w, n)
  {
  }

  lemma FullWindowIsMonotone(phone: string, code: string, wrong: string, w: int, n: nat)
    requires w >= 1
    ensures Monotone(FullWindow(phone, code, wrong, w, n))
  {
    hide Burst, Monotone;
    var first := Burst([], phone, code, wrong, w - 1, w, n);
    var second := Burst(first, phone, code, wrong, w, w, n);
    var third := Burst(second, phone, code, wrong, w + 1, w + 1, n);
    NoCalls(w - 1);
    BurstIsMonotone([], phone, code, wrong, w - 1, w, n);
    BurstIsMonotone(first, phone, code, wrong, w, w, n);
    LaterEnd(second, w, w + 1);
    BurstIsMonotone(second, phone, code, wrong, w + 1, w + 1, n);
    LaterEnd(third, w + 1, w + OTP_TTL_MS - 1);
    BurstIsMonotone(third, phone, code, wrong, w + OTP_TTL_MS - 1, w + OTP_TTL_MS - 1, n);
  }

  lemma NoCalls(t: int)
    ensures EndsBy([], t)
  {
  }

  lemma LaterEnd(calls: seq<Call>, t: int, u: int)
    requires EndsBy(calls, t) && t <= u
    ensures EndsBy(calls, u)
  {
  }

  // ---- The service ------------------------------------------------------------

  class AuthService {
    var otps: seq<OtpRow>
    ghost var log: seq<Attempt>
    ghost var clock: int
    const config: Config

    ghost function Current(): State
      reads this
    {
      State(otps, log, clock)
    }

    ghost predicate Valid()
      reads this
    {
      Inv(Current(), config)
    }

    constructor (config: Config)
      ensures Valid() && Current() == State([], [], 0) && this.config == config
    {
      this.config := config;
      otps, log, clock := [], [], 0;
      new;
      EmptyInv(config);
    }

    method SendOtp(phoneInput: string, code: string, now: int) returns (sent: bool)
      requires Valid() && clock <= now
      modifies this
      ensures Valid()
      ensures Current() == Step(old(Current()), Call(now, Event.SendOtp(phoneInput, code)), config)
      ensures var phone := Phone.NormalizeThaiPhoneToLocal(phoneInput);
              && (sent <==> |set i | 0 <= i < |old(otps)| && old(otps)[i].phone == phone
                                     && now - 300_000 < old(otps)[i].createdAt| < 3)
              && (sent ==>
                    && |otps| == |old(otps)| + 1
                    && otps[|old(otps)|] == OtpRow(phone, code, now, now + 300_000, false, 0)
                    && forall i :: 0 <= i < |old(otps)| ==>
                         otps[i] == if old(otps)[i].phone == phone then old(otps)[i].(isUsed := true) else old(otps)[i])
              && (!sent ==> otps == old(otps))
    {
      hide Inv, Window;
      var phone := Phone.NormalizeThaiPhoneToLocal(phoneInput);
      SendKeepsInv(Current(), phone, code, now, config);
      clock := now;
      var recentAttempts := |Recent(otps, phone, now - OTP_TTL_MS)|;
      if recentAttempts >= OTP_MAX_REQUESTS_PER_WINDOW {
        return false;
      }
      otps := Supersede(otps, phone);
      otps := otps + [NewRow(phone, code, now)];
      return true;
    }

    method VerifyOtp(phoneInput: string, code: string, now: int) returns (verified: bool)
      requires Valid() && clock <= now
      modifies this
      ensures Valid()
      ensures Current() == Step(old(Current()), Call(now, Event.VerifyOtp(phoneInput, code)), config)
      ensures var found := FindOtp(old(otps), Phone.NormalizeThaiPhoneToLocal(phoneInput), now);
              && (verified <==> found.Some? && config.accepts(old(otps)[found.value].code, code))
              && (found.None? ==> otps == old(otps))
              && (found.Some? ==>
                    var row := old(otps)[found.value];
                    otps == old(otps)[found.value :=
                      if verified then row.(isUsed := true)
                      else row.(failedAttempts := row.failedAttempts + 1,
                                isUsed := row.isUsed || row.failedAttempts + 1 >= config.maxFailedAttempts)])
    {
      hide Inv, Phone.NormalizeThaiPhoneToLocal;
      var phone := Phone.NormalizeThaiPhoneToLocal(phoneInput);
      VerifyKeepsInv(Current(), phone, code, now, config);
      clock := now;
      var found := FindOtp(otps, phone, now);
      if found.None? {
        return false;
      }
      var otp := otps[found.value];
      verified := config.accepts(otp.code, code);
      log := log + [Attempt(found.value, now, verified, true)];
      if !verified {
        otp := otp.(failedAttempts := otp.failedAttempts + 1);
        if otp.failedAttempts >= config.maxFailedAttempts {
          otp := otp.(isUsed := true);
        }
        otps := otps[found.value := otp];
        return;
      }
      otp := otp.(isUsed := true);
      otps := otps[found.value := otp];
    }

    /** The part of `changeCustomerPhone` that looks a code up and uses it. */
    method UseForPhoneChange(phoneInput: string, code: string, now: int) returns (accepted: bool)
      requires Valid() && clock <= now
      modifies this
      ensures Valid()
      ensures Current() == Step(old(Current()), Call(now, Event.ChangePhone(phoneInput, code)), config)
      ensures var found := FindOtp(old(otps), Phone.NormalizeThaiPhoneToLocal(phoneInput), now);
              && (accepted <==> found.Some? && config.accepts(old(otps)[found.value].code, code))
              && otps == if accepted then old(otps)[found.value := old(otps)[found.value].(isUsed := true)]
                         else old(otps)
    {
      hide Inv, Phone.NormalizeThaiPhoneToLocal;
      var phone := Phone.NormalizeThaiPhoneToLocal(phoneInput);
      ChangeKeepsInv(Current(), phone, code, now, config);
      clock := now;
      var found := FindOtp(otps, phone, now);
      if found.None? {
        return false;
      }
      accepted := config.accepts(otps[found.value].code, code);
      log := log + [Attempt(found.value, now, accepted, accepted)];
      if accepted {
        otps := otps[found.value := otps[found.value].(isUsed := true)];
      }
    }
  }
}
