/** The recovery protocol: ids issued by e-mail, a limited number of checks, one change of password. */
module PasswordRecovery {
  import opened Options
  import opened CacheServices
  import Decimal

  /** A fresh request id; never the empty text. */
  type Uuid = s: string | s != "" witness "0"

  datatype Entry = Entry(requestId: Uuid, attempts: nat)

  /** What the cache holds, whichever service keeps it. */
  type Entries = map<string, Entry>

  /** The passwords of the users by e-mail. */
  type Users = map<string, Option<string>>

  datatype State = State(entries: Entries, users: Users)

  /**
   * A request with what it takes from outside: the fresh id, whether the e-mail or the insert goes through.
   * `Create` has the normalised e-mail, the one its row gets, and whether the checks of phone and roles pass.
   */
  datatype Request =
    | Recover(email: string, id: Uuid, emailSent: bool)
    | Create(email: string, rowEmail: string, accepted: bool, isLocal: bool, id: Uuid, emailSent: bool, inserted: bool)
    | Check(email: string, requestId: string)
    | UpdatePassword(email: string, requestId: string, pwd: string, emailSent: bool)

  datatype Outcome =
    | UserNotFound | Refused | EmailFailed | InsertFailed | Finished
    | Checked(valid: bool)
    | InvalidRequestId | Changed | TypeError

  function Key(email: string): string {
    "recoverPassword-" + email
  }

  function CheckEntry(entries: Entries, limit: int, email: string, requestId: string): (Entries, bool) {
    var key := Key(email);
    if key !in entries then (entries, false)
    else
      var e := entries[key];
      (if e.attempts + 1 == limit then entries - {key} else entries[key := e.(attempts := e.attempts + 1)],
       requestId == e.requestId)
  }

  /** One request, start to end. A request that ends in an exception leaves the users alone but not the cache. */
  function Handle(s: State, limit: int, r: Request): (State, Outcome) {
    match r
    case Recover(email, id, emailSent) =>
      if email !in s.users then (s, UserNotFound)
      else (s.(entries := s.entries[Key(email) := Entry(id, 0)]), if emailSent then Finished else EmailFailed)
    case Create(email, rowEmail, accepted, isLocal, id, emailSent, inserted) =>
      if email in s.users || !accepted then (s, Refused)
      else
        var t := if isLocal then s else s.(entries := s.entries[Key(email) := Entry(id, 0)]);
        if !isLocal && !emailSent then (t, EmailFailed)
        else if !inserted then (t, InsertFailed)
        else (t.(users := if rowEmail in t.users then t.users else t.users[rowEmail := None]), Finished)
    case Check(email, requestId) =>
      var (entries, valid) := CheckEntry(s.entries, limit, email, requestId);
      (s.(entries := entries), Checked(valid))
    case UpdatePassword(email, requestId, pwd, emailSent) =>
      var (entries, valid) := CheckEntry(s.entries, limit, email, requestId);
      if !valid then (s.(entries := entries), InvalidRequestId)
      else if email !in s.users then (s.(entries := entries), UserNotFound)
      else if !emailSent then (s.(entries := entries), EmailFailed)
      else (State(entries - {Key(email)}, s.users[email := Some(pwd)]), Changed)
  }

  // ----- The service on either cache -----

  datatype Backend = Memory(memory: MemoryCacheService) | Redis(redis: CacheService)

  /** The objects that belong to a cache, the stored ones included. */
  ghost function Objects(b: Backend): set<object>
    reads if b.Memory? then {b.memory} else {}
  {
    match b
    case Memory(m) => {m} + (set key | key in m.cache :: m.cache[key])
    case Redis(r) => {r}
  }

  ghost predicate Fits(fields: map<string, Value>, e: Entry) {
    && fields.Keys == {"requestId", "attempts"}
    && fields["requestId"] == Text(e.requestId)
    && ToNumber(fields["attempts"]) == Number(e.attempts)
  }

  /**
   * The cache stands for the entries. In memory the counter is a text until it is first incremented and a
   * number from then on, and no two keys share an object; on the server it is always a text.
   */
  ghost predicate Holds(b: Backend, entries: Entries)
    reads Objects(b), if b.Memory? then {b.memory} else {}
  {
    match b
    case Memory(m) => HoldsInMemory(m.cache, entries)
    case Redis(r) => HoldsOnServer(r.hashes, entries)
  }

  ghost predicate HoldsInMemory(cache: map<string, JsObject>, entries: Entries)
    reads set key | key in cache :: cache[key]
  {
    && cache.Keys == entries.Keys
    && (forall k, l :: k in cache && l in cache && k != l ==> cache[k] != cache[l])
    && (forall k :: k in entries ==> Fits(cache[k].fields, entries[k]))
  }

  ghost predicate HoldsOnServer(hashes: map<string, map<string, string>>, entries: Entries) {
    && hashes.Keys == entries.Keys
    && (forall k :: k in entries ==> hashes[k] == OnServer(entries[k]))
  }

  function OnServer(e: Entry): map<string, string> {
    map["requestId" := e.requestId, "attempts" := Decimal.Print(e.attempts)]
  }

  lemma FitsWhenNew(id: Uuid)
    ensures Fits(map["requestId" := Text(id), "attempts" := Text("0")], Entry(id, 0))
  {
    assert Decimal.Value("0") == 0;
  }

  lemma FitsWhenIncremented(fields: map<string, Value>, e: Entry)
    requires Fits(fields, e)
    ensures "attempts" in fields
    ensures Fits(fields["attempts" := Plus(ToNumber(fields["attempts"]), 1)], e.(attempts := e.attempts + 1))
  {
  }

  /** Merging a new entry over an old one leaves nothing of the old one, so it is as if it had been replaced. */
  lemma MergedOnServer(hashes: map<string, map<string, string>>, entries: Entries, key: string, id: Uuid)
    requires HoldsOnServer(hashes, entries)
    ensures var merged := (if key in hashes then hashes[key] else map[]) + map["requestId" := id, "attempts" := "0"];
            HoldsOnServer(hashes[key := merged], entries[key := Entry(id, 0)])
  {
    assert OnServer(Entry(id, 0)) == map["requestId" := id, "attempts" := "0"];
    assert key in hashes ==> hashes[key] + OnServer(Entry(id, 0)) == OnServer(Entry(id, 0));
  }

  lemma IncrementedOnServer(hashes: map<string, map<string, string>>, entries: Entries, key: string)
    requires HoldsOnServer(hashes, entries) && key in entries
    ensures key in hashes && "attempts" in hashes[key]
    ensures var text := hashes[key]["attempts"];
            && Decimal.IsIntText(text)
            && HoldsOnServer(hashes[key := hashes[key]["attempts" := Decimal.IntText(Decimal.ReadInt(text) + 1)]],
                             entries[key := entries[key].(attempts := entries[key].attempts + 1)])
  {
    var e := entries[key];
    Decimal.IntTextReadsBack(e.attempts);
    assert OnServer(e)["attempts" := Decimal.Print(e.attempts + 1)] == OnServer(e.(attempts := e.attempts + 1));
  }

  class UserService {
    const cacheService: Backend
    const recoveryAttempts: int
    var users: Users

    constructor (cacheService: Backend, recoveryAttempts: int, users: Users)
      ensures this.cacheService == cacheService && this.recoveryAttempts == recoveryAttempts && this.users == users
    {
      this.cacheService, this.recoveryAttempts, this.users := cacheService, recoveryAttempts, users;
    }

    static method IssueInMemory(m: MemoryCacheService, key: string, requestId: Uuid, ghost entries: Entries)
      requires HoldsInMemory(m.cache, entries)
      modifies m
      ensures HoldsInMemory(m.cache, entries[key := Entry(requestId, 0)])
      ensures key in m.cache && fresh(m.cache[key]) && m.cache == old(m.cache)[key := m.cache[key]]
    {
      FitsWhenNew(requestId);
      var data := new JsObject(map["requestId" := Text(requestId), "attempts" := Text("0")]);
      m.SetFields(key, data);
    }

    static method IssueOnServer(r: CacheService, key: string, requestId: Uuid, ghost entries: Entries)
      requires HoldsOnServer(r.hashes, entries)
      modifies r
      ensures HoldsOnServer(r.hashes, entries[key := Entry(requestId, 0)])
    {
      MergedOnServer(r.hashes, entries, key, requestId);
      ghost var before: map<string, string> := if key in r.hashes then r.hashes[key] else map[];
      r.SetFields(key, map["requestId" := requestId, "attempts" := "0"]);
      assert r.hashes == old(r.hashes)[key := before + map["requestId" := requestId, "attempts" := "0"]];
    }

    /** Store a new entry with no attempts under the e-mail's key, as the requests that issue an id do. */
    method Issue(email: string, requestId: Uuid, ghost entries: Entries)
      requires Holds(cacheService, entries)
      modifies Objects(cacheService)
      ensures Holds(cacheService, entries[Key(email) := Entry(requestId, 0)])
      ensures fresh(Objects(cacheService) - old(Objects(cacheService)))
    {
      match cacheService {
        case Memory(m) => IssueInMemory(m, Key(email), requestId, entries);
        case Redis(r) => IssueOnServer(r, Key(email), requestId, entries);
      }
    }

    method DeleteKey(key: string, ghost entries: Entries)
      requires Holds(cacheService, entries)
      modifies Objects(cacheService)
      ensures Holds(cacheService, entries - {key})
      ensures Objects(cacheService) <= old(Objects(cacheService))
    {
      match cacheService {
        case Memory(m) => m.Del(key);
        case Redis(r) => r.Del(key);
      }
    }

    /** The id and the counter of a key, as the cache returns them. */
    method ReadEntry(key: string, ghost entries: Entries) returns (requestId: Option<Value>, attempts: Option<Value>)
      requires Holds(cacheService, entries)
      ensures key !in entries ==> requestId == None
      ensures key in entries ==> requestId == Some(Text(entries[key].requestId))
      ensures key in entries ==> attempts.Some? && ToNumber(attempts.value) == Number(entries[key].attempts)
    {
      var fields := ["requestId", "attempts"];
      var result;
      match cacheService {
        case Memory(m) => result := m.GetFields(key, fields);
        case Redis(r) => result := r.GetFields(key, fields);
      }
      requestId, attempts := Nth(result, 0), Nth(result, 1);
      if key in entries { Decimal.ReadBack(entries[key].attempts); }
    }

    static method IncrementInMemory(m: MemoryCacheService, key: string, ghost entries: Entries) returns (thrown: bool)
      requires HoldsInMemory(m.cache, entries) && key in entries
      modifies m.cache[key]
      ensures !thrown
      ensures HoldsInMemory(m.cache, entries[key := entries[key].(attempts := entries[key].attempts + 1)])
    {
      FitsWhenIncremented(m.cache[key].fields, entries[key]);
      thrown := m.IncrementFieldBy(key, "attempts", 1);
      forall k | k in entries && k != key ensures Fits(m.cache[k].fields, entries[k]) {
        assert m.cache[k] != m.cache[key];
      }
    }

    static method IncrementOnServer(r: CacheService, key: string, ghost entries: Entries) returns (thrown: bool)
      requires HoldsOnServer(r.hashes, entries) && key in entries
      modifies r
      ensures !thrown
      ensures HoldsOnServer(r.hashes, entries[key := entries[key].(attempts := entries[key].attempts + 1)])
    {
      IncrementedOnServer(r.hashes, entries, key);
      ghost var was := r.hashes[key]["attempts"];
      thrown := r.IncrementFieldBy(key, "attempts", 1);
      assert r.hashes ==
             old(r.hashes)[key := old(r.hashes)[key]["attempts" := Decimal.IntText(Decimal.ReadInt(was) + 1)]];
    }

    method IncrementAttempts(key: string, ghost entries: Entries) returns (thrown: bool)
      requires Holds(cacheService, entries) && key in entries
      modifies Objects(cacheService)
      ensures !thrown
      ensures Holds(cacheService, entries[key := entries[key].(attempts := entries[key].attempts + 1)])
      ensures Objects(cacheService) == old(Objects(cacheService))
    {
      match cacheService {
        case Memory(m) => thrown := IncrementInMemory(m, key, entries);
        case Redis(r) => thrown := IncrementOnServer(r, key, entries);
      }
    }

    /** Count one check of the stored id, or remove the entry when this is the last one allowed. */
    method CheckRecoveryHashInner(email: string, requestId: string, ghost entries: Entries)
      returns (thrown: bool, valid: bool)
      requires Holds(cacheService, entries)
      modifies Objects(cacheService)
      ensures !thrown
      ensures var (after, ok) := CheckEntry(entries, recoveryAttempts, email, requestId);
              Holds(cacheService, after) && valid == ok
      ensures Objects(cacheService) <= old(Objects(cacheService))
    {
      thrown := false;
      var cacheKey := Key(email);
      var cachedRequestId, attempts := ReadEntry(cacheKey, entries);
      if cachedRequestId.Some? && cachedRequestId.value != Text("") {
        if attempts.Some? && Plus(ToNumber(attempts.value), 1) == Number(recoveryAttempts) {
          DeleteKey(cacheKey, entries);
        } else {
          thrown := IncrementAttempts(cacheKey, entries);
        }
        return thrown, Text(requestId) == cachedRequestId.value;
      }
      return false, false;
    }

    /** The users, and the entries that the cache stands for. */
    ghost predicate InState(s: State)
      reads this, Objects(cacheService), if cacheService.Memory? then {cacheService.memory} else {}
    {
      users == s.users && Holds(cacheService, s.entries)
    }

    method SendRecoverPasswordEmail(r: Request, ghost s: State) returns (outcome: Outcome)
      requires r.Recover? && InState(s)
      modifies Objects(cacheService)
      ensures InState(Handle(s, recoveryAttempts, r).0) && outcome == Handle(s, recoveryAttempts, r).1
      ensures fresh(Objects(cacheService) - old(Objects(cacheService)))
    {
      if r.email !in users { return UserNotFound; }
      Issue(r.email, r.id, s.entries);
      outcome := if r.emailSent then Finished else EmailFailed;
    }

    method Create(r: Request, ghost s: State) returns (outcome: Outcome)
      requires r.Create? && InState(s)
      modifies this`users, Objects(cacheService)
      ensures InState(Handle(s, recoveryAttempts, r).0) && outcome == Handle(s, recoveryAttempts, r).1
      ensures fresh(Objects(cacheService) - old(Objects(cacheService)))
    {
      if r.email in users || !r.accepted { return Refused; }
      if !r.isLocal {
        Issue(r.email, r.id, s.entries);
        if !r.emailSent { return EmailFailed; }
      }
      if !r.inserted { return InsertFailed; }
      if r.rowEmail !in users {
        users := users[r.rowEmail := None];
      }
      outcome := Finished;
    }

    /** Set the password and send the mail. What was done to the users is undone when this throws. */
    method PatchAndNotify(r: Request) returns (outcome: Outcome)
      requires r.UpdatePassword?
      modifies this`users
      ensures outcome == if r.email !in old(users) then UserNotFound else if !r.emailSent then EmailFailed else Changed
      ensures users == if outcome == Changed then old(users)[r.email := Some(r.pwd)] else old(users)
    {
      var saved := users;
      if r.email !in users { return UserNotFound; }
      users := users[r.email := Some(r.pwd)];
      if !r.emailSent {
        users := saved;
        return EmailFailed;
      }
      outcome := Changed;
    }

    /** The part of an update that follows a valid check. */
    method ChangePassword(r: Request, ghost entries: Entries) returns (outcome: Outcome)
      requires r.UpdatePassword? && Holds(cacheService, entries)
      modifies this`users, Objects(cacheService)
      ensures outcome == if r.email !in old(users) then UserNotFound else if !r.emailSent then EmailFailed else Changed
      ensures users == if outcome == Changed then old(users)[r.email := Some(r.pwd)] else old(users)
      ensures Holds(cacheService, if outcome == Changed then entries - {Key(r.email)} else entries)
      ensures Objects(cacheService) <= old(Objects(cacheService))
    {
      outcome := PatchAndNotify(r);
      if outcome == Changed { DeleteKey(Key(r.email), entries); }
    }

    method UpdatePassword(r: Request, ghost s: State) returns (outcome: Outcome)
      requires r.UpdatePassword? && InState(s)
      modifies this`users, Objects(cacheService)
      ensures InState(Handle(s, recoveryAttempts, r).0) && outcome == Handle(s, recoveryAttempts, r).1
      ensures Objects(cacheService) <= old(Objects(cacheService))
    {
      var thrown, isValidHash := CheckRecoveryHashInner(r.email, r.requestId, s.entries);
      if thrown { return TypeError; }
      if !isValidHash { return InvalidRequestId; }
      outcome := ChangePassword(r, CheckEntry(s.entries, recoveryAttempts, r.email, r.requestId).0);
    }

    /** From a state on, the request leads where `Handle` says and ends so. */
    method Serve(r: Request, ghost s: State) returns (outcome: Outcome)
      requires InState(s)
      modifies this`users, Objects(cacheService)
      ensures InState(Handle(s, recoveryAttempts, r).0) && outcome == Handle(s, recoveryAttempts, r).1
      ensures fresh(Objects(cacheService) - old(Objects(cacheService)))
    {
      match r
      case Recover(_, _, _) => outcome := SendRecoverPasswordEmail(r, s);
      case Create(_, _, _, _, _, _, _) => outcome := Create(r, s);
      case Check(email, requestId) =>
        var thrown, valid := CheckRecoveryHashInner(email, requestId, s.entries);
        outcome := if thrown then TypeError else Checked(valid);
      case UpdatePassword(_, _, _, _) => outcome := UpdatePassword(r, s);
    }
  }

  // ----- Runs -----

  /** The state after a run of requests, one after the other, from an empty cache and the given users. */
  function StateAfter(users: Users, limit: int, run: seq<Request>): State {
    if run == [] then State(map[], users)
    else Handle(StateAfter(users, limit, run[..|run| - 1]), limit, run[|run| - 1]).0
  }

  function OutcomeAt(users: Users, limit: int, run: seq<Request>, k: nat): Outcome
    requires k < |run|
  {
    Handle(StateAfter(users, limit, run[..k]), limit, run[k]).1
  }

  /** The id that the request stores for its e-mail, if it does. */
  function IssuedId(s: State, r: Request): Option<Uuid> {
    match r
    case Recover(email, id, _) => if email in s.users then Some(id) else None
    case Create(email, _, accepted, isLocal, id, _, _) =>
      if email !in s.users && accepted && !isLocal then Some(id) else None
    case _ => None
  }

  /** The last request of the run that stored an id for the e-mail, or -1. */
  function LastIssue(users: Users, limit: int, run: seq<Request>, email: string): (k: int)
    ensures -1 <= k < |run|
    ensures k >= 0 ==> run[k].email == email && (run[k].Recover? || run[k].Create?)
  {
    if run == [] then -1
    else
      var n := |run| - 1;
      if run[n].email == email && IssuedId(StateAfter(users, limit, run[..n]), run[n]).Some? then n
      else LastIssue(users, limit, run[..n], email)
  }

  /** How many checks or updates named the e-mail while the id of request k was its latest one. */
  function Tries(users: Users, limit: int, run: seq<Request>, email: string, k: int): nat {
    if run == [] then 0
    else
      var n := |run| - 1;
      Tries(users, limit, run[..n], email, k) +
      if && run[n].email == email && (run[n].Check? || run[n].UpdatePassword?)
         && LastIssue(users, limit, run[..n], email) == k
      then 1 else 0
  }

  /** How many of them changed the password. */
  function Changes(users: Users, limit: int, run: seq<Request>, email: string, k: int): nat {
    if run == [] then 0
    else
      var n := |run| - 1;
      Changes(users, limit, run[..n], email, k) +
      if && run[n].email == email && OutcomeAt(users, limit, run, n) == Changed
         && LastIssue(users, limit, run[..n], email) == k
      then 1 else 0
  }

  lemma KeysDiffer(a: string, b: string)
    ensures Key(a) == Key(b) <==> a == b
  {
    var n := |"recoverPassword-"|;
    assert Key(a)[n..] == a && Key(b)[n..] == b;
  }

  lemma {:induction false} NothingBeforeIssue(users: Users, limit: int, run: seq<Request>, email: string, k: int)
    requires k >= |run|
    ensures Tries(users, limit, run, email, k) == Changes(users, limit, run, email, k) == 0
  {
    if run != [] { NothingBeforeIssue(users, limit, run[..|run| - 1], email, k); }
  }

  /** The latest id of an e-mail has changed no password and, under a limit of at least 1, not used up its tries. */
  predicate Open(users: Users, limit: int, run: seq<Request>, email: string) {
    var k := LastIssue(users, limit, run, email);
    && k >= 0 && Changes(users, limit, run, email, k) == 0
    && (limit >= 1 ==> Tries(users, limit, run, email, k) < limit)
  }

  /** The entry of an e-mail is there exactly while its latest id is open, and counts the tries of that id. */
  lemma {:induction false} EntryTellsHistory(users: Users, limit: int, run: seq<Request>, email: string)
    ensures var k := LastIssue(users, limit, run, email);
            var entries := StateAfter(users, limit, run).entries;
            && (Key(email) in entries <==> Open(users, limit, run, email))
            && (Key(email) in entries ==>
                  entries[Key(email)] == Entry(run[k].id, Tries(users, limit, run, email, k)))
  {
    if run != [] {
      var n := |run| - 1;
      EntryTellsHistory(users, limit, run[..n], email);
      NothingBeforeIssue(users, limit, run[..n], email, n);
      RequestMovesEntry(StateAfter(users, limit, run[..n]), limit, run[n], email);
    }
  }

  /** How one request moves the entry of an e-mail. */
  lemma RequestMovesEntry(s: State, limit: int, r: Request, email: string)
    ensures var (t, o) := Handle(s, limit, r);
            && (r.email != email ==> Same(s, t, email))
            && (r.email == email && (r.Recover? || r.Create?) ==>
                  if IssuedId(s, r).Some? then
                    Key(email) in t.entries && t.entries[Key(email)] == Entry(IssuedId(s, r).value, 0)
                  else Same(s, t, email))
            && (r.email == email && (r.Check? || r.UpdatePassword?) ==>
                  if Key(email) !in s.entries then Key(email) !in t.entries && o != Changed
                  else
                    var e := s.entries[Key(email)];
                    if o == Changed || e.attempts + 1 == limit then Key(email) !in t.entries
                    else Key(email) in t.entries && t.entries[Key(email)] == e.(attempts := e.attempts + 1))
  {
    KeysDiffer(email, r.email);
  }

  predicate Same(s: State, t: State, email: string) {
    if Key(email) in s.entries then Key(email) in t.entries && t.entries[Key(email)] == s.entries[Key(email)]
    else Key(email) !in t.entries
  }

  /** With a limit of at least 1 the counter stays strictly below it, so the equality test is never stepped over. */
  lemma AttemptsStayBelowLimit(users: Users, limit: int, run: seq<Request>, email: string)
    requires limit >= 1
    ensures var entries := StateAfter(users, limit, run).entries;
            Key(email) in entries ==> entries[Key(email)].attempts < limit
  {
    EntryTellsHistory(users, limit, run, email);
  }

  /** A check answers yes exactly for the latest id of the e-mail, and only while that id is open. */
  lemma ValidExactly(users: Users, limit: int, run: seq<Request>, j: nat)
    requires j < |run| && run[j].Check?
    ensures var k := LastIssue(users, limit, run[..j], run[j].email);
            && OutcomeAt(users, limit, run, j).Checked?
            && (OutcomeAt(users, limit, run, j) == Checked(true) <==>
                  Open(users, limit, run[..j], run[j].email) && run[j].requestId == run[k].id)
  {
    EntryTellsHistory(users, limit, run[..j], run[j].email);
  }

  /**
   * A password is changed exactly with the latest id of the e-mail while it is open, for a user, and if the
   * mail goes out.
   */
  lemma ChangedExactly(users: Users, limit: int, run: seq<Request>, j: nat)
    requires j < |run| && run[j].UpdatePassword?
    ensures var k := LastIssue(users, limit, run[..j], run[j].email);
            OutcomeAt(users, limit, run, j) == Changed <==>
            && Open(users, limit, run[..j], run[j].email) && run[j].requestId == run[k].id
            && run[j].email in StateAfter(users, limit, run[..j]).users && run[j].emailSent
  {
    EntryTellsHistory(users, limit, run[..j], run[j].email);
  }

  /** In every run each issued id changes at most one password. */
  lemma {:induction false} AtMostOneChange(users: Users, limit: int, run: seq<Request>, email: string, k: int)
    ensures Changes(users, limit, run, email, k) <= 1
  {
    if run != [] {
      var n := |run| - 1;
      AtMostOneChange(users, limit, run[..n], email, k);
      if run[n].email == email { EntryTellsHistory(users, limit, run[..n], email); }
    }
  }

  /** Passwords change in no other way: a user's password is set by the last committed change for that e-mail. */
  lemma PasswordsOnlyByChange(users: Users, limit: int, run: seq<Request>, email: string, j: nat)
    requires j < |run| && email in StateAfter(users, limit, run[..j]).users
    ensures var s, t := StateAfter(users, limit, run[..j]), StateAfter(users, limit, run[..j + 1]);
            && email in t.users
            && (t.users[email] != s.users[email] ==>
                  run[j].UpdatePassword? && run[j].email == email && OutcomeAt(users, limit, run, j) == Changed
                  && t.users[email] == Some(run[j].pwd))
  {
    assert run[..j + 1][..j] == run[..j];
  }

  /** How an update ends, on every branch and in every run. */
  lemma UpdateExactly(users: Users, limit: int, run: seq<Request>, j: nat)
    requires j < |run| && run[j].UpdatePassword?
    ensures var r, o, s := run[j], OutcomeAt(users, limit, run, j), StateAfter(users, limit, run[..j]);
            var valid := IsLatestOpen(users, limit, run[..j], r.email, r.requestId);
            && (o == InvalidRequestId <==> !valid)
            && (o == UserNotFound <==> valid && r.email !in s.users)
            && (o == EmailFailed <==> valid && r.email in s.users && !r.emailSent)
            && (o == Changed <==> valid && r.email in s.users && r.emailSent)
  {
    EntryTellsHistory(users, limit, run[..j], run[j].email);
  }

  /** The id is the one issued last for the e-mail, and it is still open. */
  predicate IsLatestOpen(users: Users, limit: int, run: seq<Request>, email: string, id: string) {
    var k := LastIssue(users, limit, run, email);
    Open(users, limit, run, email) && id == run[k].id
  }

  /** How a request that issues ids ends: the mail and the insert decide, once there is something to do. */
  lemma IssuingExactly(users: Users, limit: int, run: seq<Request>, j: nat)
    requires j < |run|
    ensures var r, o, s := run[j], OutcomeAt(users, limit, run, j), StateAfter(users, limit, run[..j]);
            && (r.Recover? ==>
                  && (o == UserNotFound <==> r.email !in s.users)
                  && (o == EmailFailed <==> r.email in s.users && !r.emailSent)
                  && (o == Finished <==> r.email in s.users && r.emailSent))
            && (r.Create? ==>
                  && (o == Refused <==> r.email in s.users || !r.accepted)
                  && (o == EmailFailed <==> r.email !in s.users && r.accepted && !r.isLocal && !r.emailSent)
                  && (o == InsertFailed <==>
                        r.email !in s.users && r.accepted && (r.isLocal || r.emailSent) && !r.inserted)
                  && (o == Finished <==>
                        r.email !in s.users && r.accepted && (r.isLocal || r.emailSent) && r.inserted))
  {
  }

  /**
   * What a request makes of the users: a committed change sets the password, a finished creation adds a user,
   * nothing else.
   */
  lemma UsersExactly(users: Users, limit: int, run: seq<Request>, j: nat)
    requires j < |run|
    ensures var r, o := run[j], OutcomeAt(users, limit, run, j);
            var before, after := StateAfter(users, limit, run[..j]).users, StateAfter(users, limit, run[..j + 1]).users;
            && (o == Changed ==> r.UpdatePassword? && after == before[r.email := Some(r.pwd)])
            && (o == Finished && r.Create? ==>
                  after == if r.rowEmail in before then before else before[r.rowEmail := None])
            && (o != Changed && !(o == Finished && r.Create?) ==> after == before)
  {
    assert run[..j + 1][..j] == run[..j];
  }

  /** A valid update, for a user and with the mail sent, sets the password, and uses up the id. */
  lemma ValidUpdateSetsPassword(users: Users, limit: int, run: seq<Request>, j: nat)
    requires j < |run| && run[j].UpdatePassword?
    requires IsLatestOpen(users, limit, run[..j], run[j].email, run[j].requestId)
    requires run[j].email in StateAfter(users, limit, run[..j]).users && run[j].emailSent
    ensures var s, t := StateAfter(users, limit, run[..j]), StateAfter(users, limit, run[..j + 1]);
            && t.users == s.users[run[j].email := Some(run[j].pwd)]
            && Key(run[j].email) !in t.entries && !Open(users, limit, run[..j + 1], run[j].email)
  {
    assert run[..j + 1][..j] == run[..j];
    UpdateExactly(users, limit, run, j);
    UsersExactly(users, limit, run, j);
    EntryTellsHistory(users, limit, run[..j + 1], run[j].email);
  }

  /** The last request of the run that changed the e-mail's password, or -1. */
  function LastChange(users: Users, limit: int, run: seq<Request>, email: string): (k: int)
    ensures -1 <= k < |run|
  {
    if run == [] then -1
    else
      var n := |run| - 1;
      if run[n].email == email && run[n].UpdatePassword? && OutcomeAt(users, limit, run, n) == Changed then n
      else LastChange(users, limit, run[..n], email)
  }

  /** In every run, a user's password is that of the last committed change, and without one it is as at the start. */
  lemma {:induction false} PasswordTellsHistory(users: Users, limit: int, run: seq<Request>, email: string)
    ensures var k, now := LastChange(users, limit, run, email), StateAfter(users, limit, run).users;
            && (email in users ==> email in now)
            && (k >= 0 ==> run[k].UpdatePassword? && email in now && now[email] == Some(run[k].pwd))
            && (k < 0 && email in now ==> now[email] == if email in users then users[email] else None)
  {
    if run != [] {
      var n := |run| - 1;
      PasswordTellsHistory(users, limit, run[..n], email);
      assert run[..n + 1] == run;
      UsersExactly(users, limit, run, n);
    }
  }

  /** How many checks or updates found the entry of the e-mail while it held the id of request k. */
  function Answered(users: Users, limit: int, run: seq<Request>, email: string, k: int): nat {
    if run == [] then 0
    else
      var n := |run| - 1;
      Answered(users, limit, run[..n], email, k) +
      if && run[n].email == email && (run[n].Check? || run[n].UpdatePassword?)
         && LastIssue(users, limit, run[..n], email) == k
         && Key(email) in StateAfter(users, limit, run[..n]).entries
      then 1 else 0
  }

  lemma {:induction false} AnsweredIsBounded(users: Users, limit: int, run: seq<Request>, email: string, k: int)
    requires limit >= 1
    ensures Answered(users, limit, run, email, k) <= Tries(users, limit, run, email, k)
    ensures Answered(users, limit, run, email, k) <= limit
  {
    if run != [] {
      AnsweredIsBounded(users, limit, run[..|run| - 1], email, k);
      EntryTellsHistory(users, limit, run[..|run| - 1], email);
    }
  }

  /** In no run does one id meet more than `bound` checks. */
  ghost predicate ChecksBounded(users: Users, limit: int, email: string, bound: int) {
    forall run, k :: Answered(users, limit, run, email, k) <= bound
  }

  /** One id is issued, and then checked n times. */
  function CheckedOften(email: string, n: nat): seq<Request> {
    if n == 0 then [Recover(email, "0", true)] else CheckedOften(email, n - 1) + [Check(email, "")]
  }

  lemma {:induction false} AnsweredOnceMore(users: Users, limit: int, run: seq<Request>, email: string, n: nat)
    requires limit < 1 && LastIssue(users, limit, run, email) == 0 && Answered(users, limit, run, email, 0) == n
    requires Key(email) in StateAfter(users, limit, run).entries
    ensures var more := run + [Check(email, "")];
            && LastIssue(users, limit, more, email) == 0
            && Answered(users, limit, more, email, 0) == n + 1
            && Key(email) in StateAfter(users, limit, more).entries
  {
    var more := run + [Check(email, "")];
    assert more[..|run|] == run;
    RequestMovesEntry(StateAfter(users, limit, run), limit, Check(email, ""), email);
  }

  lemma {:induction false} AllAnswered(users: Users, limit: int, email: string, n: nat)
    requires limit < 1 && email in users
    ensures var run := CheckedOften(email, n);
            && LastIssue(users, limit, run, email) == 0
            && Answered(users, limit, run, email, 0) == n
            && Key(email) in StateAfter(users, limit, run).entries
  {
    if n == 0 {
      assert [Recover(email, "0", true)][..0] == [];
    } else {
      AllAnswered(users, limit, email, n - 1);
      AnsweredOnceMore(users, limit, CheckedOften(email, n - 1), email, n - 1);
    }
  }

  /**
   * One id meets at most as many checks as the limit, in every run, exactly when the limit is at least 1.
   * With any other limit there is no bound at all.
   */
  lemma ChecksBoundedExactly(users: Users, limit: int, email: string)
    requires email in users
    ensures limit >= 1 <==> ChecksBounded(users, limit, email, limit)
    ensures limit >= 1 <==> exists bound :: ChecksBounded(users, limit, email, bound)
  {
    if limit >= 1 {
      forall run, k ensures Answered(users, limit, run, email, k) <= limit {
        AnsweredIsBounded(users, limit, run, email, k);
      }
      assert ChecksBounded(users, limit, email, limit);
    } else {
      forall bound ensures !ChecksBounded(users, limit, email, bound) {
        var n := if bound < 0 then 0 else bound + 1;
        AllAnswered(users, limit, email, n);
        assert Answered(users, limit, CheckedOften(email, n), email, 0) > bound;
      }
    }
  }

  // ----- Both caches together -----

  /** The outcomes of a run, in order. */
  function Outcomes(users: Users, limit: int, run: seq<Request>): seq<Outcome> {
    seq(|run|, i requires 0 <= i < |run| => OutcomeAt(users, limit, run, i))
  }

  lemma OneMoreOutcome(users: Users, limit: int, run: seq<Request>, i: nat)
    requires i < |run|
    ensures var s := StateAfter(users, limit, run[..i]);
            && StateAfter(users, limit, run[..i + 1]) == Handle(s, limit, run[i]).0
            && Outcomes(users, limit, run[..i + 1]) == Outcomes(users, limit, run[..i]) + [Handle(s, limit, run[i]).1]
  {
    assert run[..i + 1][..i] == run[..i];
    forall j | 0 <= j < i ensures OutcomeAt(users, limit, run[..i + 1], j) == OutcomeAt(users, limit, run[..i], j) {
      assert run[..i + 1][..j] == run[..i][..j];
    }
  }

  /** On either cache, a run of requests has the outcomes and leaves the users and entries that `Handle` says. */
  method ServeRun(service: UserService, run: seq<Request>) returns (outcomes: seq<Outcome>)
    requires Holds(service.cacheService, map[])
    modifies service`users, Objects(service.cacheService)
    ensures outcomes == Outcomes(old(service.users), service.recoveryAttempts, run)
    ensures service.InState(StateAfter(old(service.users), service.recoveryAttempts, run))
  {
    outcomes := [];
    ghost var users, limit := service.users, service.recoveryAttempts;
    ghost var s := State(map[], users);
    for i := 0 to |run|
      invariant s == StateAfter(users, limit, run[..i]) && outcomes == Outcomes(users, limit, run[..i])
      invariant service.InState(s)
      invariant fresh(Objects(service.cacheService) - old(Objects(service.cacheService)))
    {
      OneMoreOutcome(users, limit, run, i);
      var outcome := service.Serve(run[i], s);
      outcomes := outcomes + [outcome];
      s := Handle(s, limit, run[i]).0;
    }
    assert run[..|run|] == run;
  }

  method RunInMemory(recoveryAttempts: int, users: Users, run: seq<Request>)
    returns (outcomes: seq<Outcome>, service: UserService)
    ensures fresh(service) && outcomes == Outcomes(users, recoveryAttempts, run)
    ensures service.users == StateAfter(users, recoveryAttempts, run).users
  {
    var memory := new MemoryCacheService();
    service := new UserService(Memory(memory), recoveryAttempts, users);
    outcomes := ServeRun(service, run);
  }

  method RunOnServer(server: CacheService, recoveryAttempts: int, users: Users, run: seq<Request>)
    returns (outcomes: seq<Outcome>, service: UserService)
    requires server.hashes == map[]
    modifies server
    ensures fresh(service) && outcomes == Outcomes(users, recoveryAttempts, run)
    ensures service.users == StateAfter(users, recoveryAttempts, run).users
  {
    service := new UserService(Redis(server), recoveryAttempts, users);
    outcomes := ServeRun(service, run);
  }

  /**
   * Over any run of requests, an empty cache in memory and an empty server give the same outcomes and the same
   * users.
   */
  method BothCachesAgree(server: CacheService, recoveryAttempts: int, users: Users, run: seq<Request>)
    returns (inMemory: seq<Outcome>, onServer: seq<Outcome>, a: UserService, b: UserService)
    requires server.hashes == map[]
    modifies server
    ensures inMemory == onServer == Outcomes(users, recoveryAttempts, run) && a.users == b.users
  {
    inMemory, a := RunInMemory(recoveryAttempts, users, run);
    onServer, b := RunOnServer(server, recoveryAttempts, users, run);
  }
}
