/** Login by a one-time SMS code: the record kept per phone, the operations on it, and what every run of them keeps. */
module SmsCodes {

  /** The cached record of a phone. Times are in milliseconds. */
  datatype CodeData = CodeData(code: string, createdAt: int, updatedAt: int, expiresAt: int, countOfBadAttempts: int)

  type CodeCache = map<string, CodeData>

  const RESEND_WINDOW := 60 * 1000
  const LIFETIME := 1000 * 60 * 5
  const MAX_BAD_ATTEMPTS := 3

  /**
   * A request with all that it takes from outside: whether a user has the phone, the values the clock shows
   * at its successive readings, the generated code and the answer of the SMS provider.
   */
  datatype Request =
    | SendCode(phone: string, known: bool, askedAt: int, code: string, createdAt: int, updatedAt: int, stampedAt: int,
               smsAccepted: bool)
    | Login(phone: string, known: bool, code: string, checkedAt: int, updatedAt: int, tokenCreated: bool)

  datatype Outcome =
    | PhoneNotFound
    | TooSoon(waitSec: int)
    | SmsFailed
    | Stored
    | NoRecord
    | Purged
    | WrongCode
    | Matched

  /** What a request does to the cache, and how it ends. `simulate` is the switch that skips the SMS provider. */
  function Handle(cache: CodeCache, simulate: bool, r: Request): (CodeCache, Outcome) {
    if !r.known then (cache, PhoneNotFound)
    else match r
      case SendCode(phone, _, askedAt, code, createdAt, updatedAt, stampedAt, smsAccepted) =>
        if phone in cache && askedAt - cache[phone].createdAt < RESEND_WINDOW && !simulate then
          (cache, TooSoon((RESEND_WINDOW - (askedAt - cache[phone].createdAt)) / 1000))
        else if !simulate && !smsAccepted then (cache, SmsFailed)
        else (cache[phone := CodeData(code, createdAt, updatedAt, stampedAt + LIFETIME, 0)], Stored)
      case Login(phone, _, code, checkedAt, updatedAt, _) =>
        if phone !in cache then (cache, NoRecord)
        else
          var data := cache[phone];
          if checkedAt > data.expiresAt || data.countOfBadAttempts >= MAX_BAD_ATTEMPTS then (cache - {phone}, Purged)
          else if data.code == code then (cache - {phone}, Matched)
          else
            var counted := data.(countOfBadAttempts := data.countOfBadAttempts + 1, updatedAt := updatedAt);
            (cache[phone := counted], WrongCode)
  }

  /** The service over its cache, which no SQL transaction covers. */
  class AuthService {
    var cache: CodeCache
    const isSimulateSending: bool

    constructor (isSimulateSending: bool)
      ensures cache == map[] && this.isSimulateSending == isSimulateSending
    {
      cache := map[];
      this.isSimulateSending := isSimulateSending;
    }

    method ValidateByPhone(r: Request) returns (outcome: Outcome)
      requires r.Login?
      modifies this`cache
      ensures (cache, outcome) == Handle(old(cache), isSimulateSending, r)
    {
      if !r.known { return PhoneNotFound; }
      if r.phone !in cache { return NoRecord; }
      var codeData := cache[r.phone];
      var validationPipeline := [r.checkedAt <= codeData.expiresAt, codeData.countOfBadAttempts < MAX_BAD_ATTEMPTS];
      if false in validationPipeline {
        cache := cache - {r.phone};
        return Purged;
      }
      if codeData.code == r.code {
        cache := cache - {r.phone};
        outcome := Matched;
      } else {
        codeData := codeData.(countOfBadAttempts := codeData.countOfBadAttempts + 1);
        codeData := codeData.(updatedAt := r.updatedAt);
        cache := cache[r.phone := codeData];
        outcome := WrongCode;
      }
    }

    /** Login succeeds only on a match. When it throws, what it did to the cache stays done. */
    method LoginByPhone(r: Request) returns (loggedIn: bool, ghost outcome: Outcome)
      requires r.Login?
      modifies this`cache
      ensures (cache, outcome) == Handle(old(cache), isSimulateSending, r)
      ensures loggedIn <==> outcome == Matched && r.tokenCreated
    {
      var o := ValidateByPhone(r);
      outcome := o;
      loggedIn := o == Matched && r.tokenCreated;
    }

    method LoginSendCode(r: Request) returns (outcome: Outcome)
      requires r.SendCode?
      modifies this`cache
      ensures (cache, outcome) == Handle(old(cache), isSimulateSending, r)
    {
      if !r.known { return PhoneNotFound; }
      if r.phone in cache {
        var timeDiff := r.askedAt - cache[r.phone].createdAt;
        var timeToApproveResend := 60 * 1000;
        if timeDiff < timeToApproveResend && !isSimulateSending {
          return TooSoon((timeToApproveResend - timeDiff) / 1000);
        }
      }
      var codeData := CodeData(r.code, r.createdAt, r.updatedAt, r.stampedAt + 1000 * 60 * 5, 0);
      if !isSimulateSending {
        if !r.smsAccepted { return SmsFailed; }
      }
      cache := cache[r.phone := codeData];
      outcome := Stored;
    }
  }

  // ----- Runs -----

  /** The cache after a run of requests, one after the other, from the empty cache. */
  function CacheAfter(simulate: bool, run: seq<Request>): CodeCache {
    if run == [] then map[]
    else Handle(CacheAfter(simulate, run[..|run| - 1]), simulate, run[|run| - 1]).0
  }

  function OutcomeAt(simulate: bool, run: seq<Request>, k: nat): Outcome
    requires k < |run|
  {
    Handle(CacheAfter(simulate, run[..k]), simulate, run[k]).1
  }

  /** Request k sends a code to the phone and stores it. */
  predicate Issues(simulate: bool, run: seq<Request>, phone: string, k: nat)
    requires k < |run|
  {
    run[k].phone == phone && OutcomeAt(simulate, run, k) == Stored
  }

  /** Request k removes the phone's record. */
  predicate Closes(simulate: bool, run: seq<Request>, phone: string, k: nat)
    requires k < |run|
  {
    run[k].phone == phone && OutcomeAt(simulate, run, k) in {Matched, Purged}
  }

  /** The last request of the run that stored a code for the phone, or -1. */
  function LastIssue(simulate: bool, run: seq<Request>, phone: string): (k: int)
    ensures -1 <= k < |run|
  {
    if run == [] then -1
    else if Issues(simulate, run, phone, |run| - 1) then |run| - 1
    else LastIssue(simulate, run[..|run| - 1], phone)
  }

  /** How many requests for the phone ended in one of `outcomes` while the code of request k was its latest one. */
  function Meetings(simulate: bool, run: seq<Request>, phone: string, k: int, outcomes: set<Outcome>): nat {
    if run == [] then 0
    else
      var pre := run[..|run| - 1];
      Meetings(simulate, pre, phone, k, outcomes) +
      if && run[|pre|].phone == phone && OutcomeAt(simulate, run, |pre|) in outcomes
         && LastIssue(simulate, pre, phone) == k
      then 1 else 0
  }

  function Comparisons(simulate: bool, run: seq<Request>, phone: string, k: int): nat {
    Meetings(simulate, run, phone, k, {Matched, WrongCode})
  }

  function Closings(simulate: bool, run: seq<Request>, phone: string, k: int): nat {
    Meetings(simulate, run, phone, k, {Matched, Purged})
  }

  lemma {:induction false} LastIssueExact(simulate: bool, run: seq<Request>, phone: string)
    ensures var k := LastIssue(simulate, run, phone);
            && (k >= 0 ==> Issues(simulate, run, phone, k) && run[k].SendCode?)
            && forall j :: k < j < |run| ==> !Issues(simulate, run, phone, j)
  {
    if run != [] {
      var n := |run| - 1;
      LastIssueExact(simulate, run[..n], phone);
      forall j | 0 <= j < n ensures Issues(simulate, run[..n], phone, j) == Issues(simulate, run, phone, j) {
        assert run[..n][..j] == run[..j];
      }
    }
  }

  /** A code that is not stored yet has met nothing. */
  lemma {:induction false} NothingMetBeforeIssue(simulate: bool, run: seq<Request>, phone: string, k: int,
                                                 outcomes: set<Outcome>)
    requires k >= |run|
    ensures Meetings(simulate, run, phone, k, outcomes) == 0
  {
    if run != [] {
      NothingMetBeforeIssue(simulate, run[..|run| - 1], phone, k, outcomes);
    }
  }

  /**
   * The record of the phone is there exactly when the latest stored code has not been closed since, it carries
   * that code and the times of its issue, and its counter is the number of comparisons that code has met.
   */
  ghost predicate Tells(simulate: bool, run: seq<Request>, phone: string) {
    var k, cache := LastIssue(simulate, run, phone), CacheAfter(simulate, run);
    && (k >= 0 ==> run[k].SendCode?)
    && (phone in cache <==> k >= 0 && Closings(simulate, run, phone, k) == 0)
    && (phone in cache ==>
          && cache[phone].code == run[k].code
          && cache[phone].createdAt == run[k].createdAt
          && cache[phone].expiresAt == run[k].stampedAt + LIFETIME
          && cache[phone].countOfBadAttempts == Comparisons(simulate, run, phone, k) <= MAX_BAD_ATTEMPTS)
  }

  lemma {:induction false} IssueTells(simulate: bool, run: seq<Request>, phone: string)
    requires run != [] && Issues(simulate, run, phone, |run| - 1)
    ensures Tells(simulate, run, phone)
  {
    var n := |run| - 1;
    NothingMetBeforeIssue(simulate, run[..n], phone, n, {Matched, WrongCode});
    NothingMetBeforeIssue(simulate, run[..n], phone, n, {Matched, Purged});
  }

  lemma {:induction false} AnotherPhoneTells(simulate: bool, run: seq<Request>, phone: string)
    requires run != [] && run[|run| - 1].phone != phone && Tells(simulate, run[..|run| - 1], phone)
    ensures Tells(simulate, run, phone)
  {
  }

  /** A request that stores no code adds its comparison or removal to those of the latest code. */
  lemma {:induction false} TryTells(simulate: bool, run: seq<Request>, phone: string)
    requires run != [] && run[|run| - 1].phone == phone && !Issues(simulate, run, phone, |run| - 1)
    requires Tells(simulate, run[..|run| - 1], phone)
    ensures Tells(simulate, run, phone)
  {
    var n := |run| - 1;
    if OutcomeAt(simulate, run, n) !in {Matched, Purged, WrongCode} {
      assert CacheAfter(simulate, run) == CacheAfter(simulate, run[..n]);
    }
  }

  /** The record of a phone tells its history, in every run. */
  lemma {:induction false} RecordTellsHistory(simulate: bool, run: seq<Request>, phone: string)
    ensures Tells(simulate, run, phone)
  {
    if run != [] {
      var n := |run| - 1;
      RecordTellsHistory(simulate, run[..n], phone);
      if run[n].phone != phone {
        AnotherPhoneTells(simulate, run, phone);
      } else if Issues(simulate, run, phone, n) {
        IssueTells(simulate, run, phone);
      } else {
        TryTells(simulate, run, phone);
      }
    }
  }

  /**
   * In every run each stored code meets at most three comparisons and is closed at most once, so accepted at
   * most once.
   */
  lemma {:induction false} AttemptsAreBounded(simulate: bool, run: seq<Request>, phone: string, k: int)
    ensures Comparisons(simulate, run, phone, k) <= MAX_BAD_ATTEMPTS
    ensures Meetings(simulate, run, phone, k, {Matched}) <= Closings(simulate, run, phone, k) <= 1
  {
    if run != [] {
      var pre := run[..|run| - 1];
      AttemptsAreBounded(simulate, pre, phone, k);
      RecordTellsHistory(simulate, pre, phone);
      LastIssueExact(simulate, pre, phone);
    }
  }

  /**
   * A code is accepted exactly when it is the latest one stored for that phone, has not expired, has met
   * fewer than three wrong tries, and has been neither accepted nor purged since it was stored.
   */
  lemma AcceptedExactly(simulate: bool, run: seq<Request>, j: nat)
    requires j < |run| && run[j].Login?
    ensures OutcomeAt(simulate, run, j) == Matched <==>
            var phone, before := run[j].phone, run[..j];
            var k := LastIssue(simulate, before, phone);
            && run[j].known && k >= 0
            && run[k].SendCode? && run[k].code == run[j].code
            && run[j].checkedAt <= run[k].stampedAt + LIFETIME
            && Comparisons(simulate, before, phone, k) < MAX_BAD_ATTEMPTS
            && Closings(simulate, before, phone, k) == 0
  {
    RecordTellsHistory(simulate, run[..j], run[j].phone);
  }

  /**
   * Another code is refused exactly while the latest one is open and younger than a minute, with the provider
   * in use.
   */
  lemma RefusedExactly(simulate: bool, run: seq<Request>, j: nat)
    requires j < |run| && run[j].SendCode?
    ensures OutcomeAt(simulate, run, j).TooSoon? <==>
            var phone, before := run[j].phone, run[..j];
            var k := LastIssue(simulate, before, phone);
            && run[j].known && !simulate && k >= 0
            && run[k].SendCode? && run[j].askedAt - run[k].createdAt < RESEND_WINDOW
            && Closings(simulate, before, phone, k) == 0
  {
    RecordTellsHistory(simulate, run[..j], run[j].phone);
  }

  // ----- The same, told by the requests alone -----

  /** A try of a code: a login of a known phone. */
  predicate IsTry(r: Request, phone: string) {
    r.Login? && r.known && r.phone == phone
  }

  /** How many tries for the phone came after request k. */
  function Tries(run: seq<Request>, phone: string, k: int): nat {
    if run == [] || k >= |run| - 1 then 0
    else Tries(run[..|run| - 1], phone, k) + if IsTry(run[|run| - 1], phone) then 1 else 0
  }

  /** The last request that wrote the record of issue k: the issue itself, or the last try after it. */
  function LastWrite(run: seq<Request>, phone: string, k: nat): (l: nat)
    requires k < |run|
    ensures k <= l < |run|
  {
    if k == |run| - 1 || IsTry(run[|run| - 1], phone) then |run| - 1 else LastWrite(run[..|run| - 1], phone, k)
  }

  /** A try that leaves the issued code in force: in time, and of another code. */
  predicate IsWrong(issue: Request, try: Request)
    requires issue.SendCode? && try.Login?
  {
    try.checkedAt <= issue.stampedAt + LIFETIME && try.code != issue.code
  }

  /** The latest code is in force: all tries since its issue were in time and wrong, and there were at most three. */
  ghost predicate InForce(simulate: bool, run: seq<Request>, phone: string) {
    var k := LastIssue(simulate, run, phone);
    && k >= 0 && run[k].SendCode?
    && (forall l :: k < l < |run| && IsTry(run[l], phone) ==> IsWrong(run[k], run[l]))
    && Tries(run, phone, k) <= MAX_BAD_ATTEMPTS
  }

  /** The record is there while the latest code is in force, and counts its tries. */
  ghost predicate TellsTries(simulate: bool, run: seq<Request>, phone: string) {
    var k, cache := LastIssue(simulate, run, phone), CacheAfter(simulate, run);
    && (phone in cache <==> InForce(simulate, run, phone))
    && (phone in cache ==>
          cache[phone] == CodeData(run[k].code, run[k].createdAt, run[LastWrite(run, phone, k)].updatedAt,
                                   run[k].stampedAt + LIFETIME, Tries(run, phone, k)))
  }

  /** A request that stores no code for the phone leaves the code in force, unless it is a try that does not. */
  lemma {:induction false} InForceNext(simulate: bool, run: seq<Request>, phone: string)
    requires run != [] && !Issues(simulate, run, phone, |run| - 1)
    ensures var n := |run| - 1;
            var k := LastIssue(simulate, run[..n], phone);
            InForce(simulate, run, phone) <==>
              && InForce(simulate, run[..n], phone)
              && (IsTry(run[n], phone) ==> IsWrong(run[k], run[n]) && Tries(run[..n], phone, k) < MAX_BAD_ATTEMPTS)
  {
    var n := |run| - 1;
    var k := LastIssue(simulate, run[..n], phone);
    assert forall l :: 0 <= l < n ==> run[..n][l] == run[l];
    if InForce(simulate, run, phone) {
      assert forall l :: k < l < n && IsTry(run[..n][l], phone) ==> IsTry(run[l], phone);
    }
  }

  lemma {:induction false} IssueTellsTries(simulate: bool, run: seq<Request>, phone: string)
    requires run != [] && Issues(simulate, run, phone, |run| - 1)
    ensures TellsTries(simulate, run, phone)
  {
  }

  lemma {:induction false} TryTellsTries(simulate: bool, run: seq<Request>, phone: string)
    requires run != [] && IsTry(run[|run| - 1], phone) && TellsTries(simulate, run[..|run| - 1], phone)
    ensures TellsTries(simulate, run, phone)
  {
    InForceNext(simulate, run, phone);
  }

  lemma {:induction false} OtherTellsTries(simulate: bool, run: seq<Request>, phone: string)
    requires run != [] && !IsTry(run[|run| - 1], phone) && !Issues(simulate, run, phone, |run| - 1)
    requires TellsTries(simulate, run[..|run| - 1], phone)
    ensures TellsTries(simulate, run, phone)
  {
    InForceNext(simulate, run, phone);
    OtherLeavesRecord(CacheAfter(simulate, run[..|run| - 1]), simulate, run[|run| - 1], phone);
  }

  lemma {:induction false} OtherLeavesRecord(cache: CodeCache, simulate: bool, r: Request, phone: string)
    requires !IsTry(r, phone) && !(r.phone == phone && Handle(cache, simulate, r).1 == Stored)
    ensures var after := Handle(cache, simulate, r).0;
            (phone in after <==> phone in cache) && (phone in cache ==> after[phone] == cache[phone])
  {
  }

  /**
   * In every run the record counts the tries that the requests made, and is there exactly while its code is in
   * force.
   */
  lemma {:induction false} RecordCountsTries(simulate: bool, run: seq<Request>, phone: string)
    ensures TellsTries(simulate, run, phone)
  {
    if run != [] {
      var n := |run| - 1;
      RecordCountsTries(simulate, run[..n], phone);
      if Issues(simulate, run, phone, n) {
        IssueTellsTries(simulate, run, phone);
      } else if IsTry(run[n], phone) {
        TryTellsTries(simulate, run, phone);
      } else {
        OtherTellsTries(simulate, run, phone);
      }
    }
  }

  /** How a login ends, on every branch and in every run, told by the requests before it. */
  lemma LoginExactly(simulate: bool, run: seq<Request>, j: nat)
    requires j < |run| && run[j].Login?
    ensures var r, o := run[j], OutcomeAt(simulate, run, j);
            var k := LastIssue(simulate, run[..j], r.phone);
            var tries := Tries(run[..j], r.phone, k);
            var inForce := InForce(simulate, run[..j], r.phone);
            && (o == PhoneNotFound <==> !r.known)
            && (o == NoRecord <==> r.known && !inForce)
            && (o == Purged <==>
                  r.known && inForce && (r.checkedAt > run[k].stampedAt + LIFETIME || tries >= MAX_BAD_ATTEMPTS))
            && (o == WrongCode <==> r.known && inForce && IsWrong(run[k], r) && tries < MAX_BAD_ATTEMPTS)
            && (o == Matched <==>
                  && r.known && inForce && r.checkedAt <= run[k].stampedAt + LIFETIME && tries < MAX_BAD_ATTEMPTS
                  && r.code == run[k].code)
  {
    RecordCountsTries(simulate, run[..j], run[j].phone);
  }

  /** How a send ends, on every branch and in every run, told by the requests before it. */
  lemma SendExactly(simulate: bool, run: seq<Request>, j: nat)
    requires j < |run| && run[j].SendCode?
    ensures var r, o, k := run[j], OutcomeAt(simulate, run, j), LastIssue(simulate, run[..j], run[j].phone);
            var inForce := InForce(simulate, run[..j], r.phone);
            var early := !simulate && inForce && r.askedAt - run[k].createdAt < RESEND_WINDOW;
            && (o == PhoneNotFound <==> !r.known)
            && (o.TooSoon? <==> r.known && early)
            && (o.TooSoon? ==>
                  1000 * o.waitSec <= RESEND_WINDOW - (r.askedAt - run[k].createdAt) < 1000 * o.waitSec + 1000)
            && (o == SmsFailed <==> r.known && !early && !simulate && !r.smsAccepted)
            && (o == Stored <==> r.known && !early && (simulate || r.smsAccepted))
  {
    RecordCountsTries(simulate, run[..j], run[j].phone);
  }

  // ----- The clock -----

  function Began(r: Request): int {
    if r.SendCode? then r.askedAt else r.checkedAt
  }

  function Ended(r: Request): int {
    if r.SendCode? then r.stampedAt else r.updatedAt
  }

  /** The clock does not run backwards, within a request and from one request to the next. */
  predicate Clocked(run: seq<Request>) {
    && (forall i :: 0 <= i < |run| ==>
          if run[i].SendCode? then run[i].askedAt <= run[i].createdAt <= run[i].updatedAt <= run[i].stampedAt
          else run[i].checkedAt <= run[i].updatedAt)
    && (forall i, j :: 0 <= i < j < |run| ==> Ended(run[i]) <= Began(run[j]))
  }

  /** While nothing closes the phone's record, it stays, and it never becomes older than the given issue. */
  lemma {:induction false} RecordStays(simulate: bool, run: seq<Request>, phone: string, i: nat, n: nat)
    requires i < n <= |run| && Clocked(run) && Issues(simulate, run, phone, i)
    requires forall j :: i < j < n ==> !Closes(simulate, run, phone, j)
    ensures phone in CacheAfter(simulate, run[..n])
    ensures CacheAfter(simulate, run[..n])[phone].createdAt >= run[i].createdAt
  {
    assert run[..n][..n - 1] == run[..n - 1];
    if n > i + 1 {
      RecordStays(simulate, run, phone, i, n - 1);
      assert Ended(run[i]) <= Began(run[n - 1]);
      assert !Closes(simulate, run, phone, n - 1);
    }
  }

  /** Two codes stored for one phone less than a minute apart have a removal of its record between them. */
  lemma ResendWindow(run: seq<Request>, phone: string, i: nat, k: nat)
    requires i < k < |run| && Clocked(run)
    requires Issues(false, run, phone, i) && Issues(false, run, phone, k)
    requires run[k].askedAt - run[i].createdAt < RESEND_WINDOW
    ensures exists j :: i < j < k && Closes(false, run, phone, j)
  {
    if forall j :: i < j < k ==> !Closes(false, run, phone, j) {
      RecordStays(false, run, phone, i, k);
    }
  }

  /** On a clock that does not run backwards, an accepted code is at most five minutes old and was issued before. */
  lemma AcceptedInTime(simulate: bool, run: seq<Request>, j: nat)
    requires j < |run| && run[j].Login? && Clocked(run)
    requires OutcomeAt(simulate, run, j) == Matched
    ensures var k := LastIssue(simulate, run[..j], run[j].phone);
            && 0 <= k < j && Issues(simulate, run, run[j].phone, k) && run[k].SendCode? && run[k].code == run[j].code
            && 0 <= run[j].checkedAt - run[k].stampedAt <= LIFETIME
  {
    AcceptedExactly(simulate, run, j);
    LastIssueExact(simulate, run[..j], run[j].phone);
    var k := LastIssue(simulate, run[..j], run[j].phone);
    assert run[..j][..k] == run[..k];
    assert Ended(run[k]) <= Began(run[j]);
  }
}
