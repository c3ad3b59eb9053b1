/** The same requests when every cache read, write and removal is a step of its own and any number are in flight. */
module SmsCodesInterleaved {
  import opened Options
  import opened SmsCodes

  /** Where a request stands, with what it holds locally. */
  datatype Progress =
    | Begun
    | GotRecord(found: Option<CodeData>)
    | Made(data: CodeData)
    | Delivered(data: CodeData)
    | Purging
    | Matching(data: CodeData)
    | Counting(data: CodeData)
    | Over(outcome: Outcome)

  /** Requests are told apart by their phone and a number. */
  datatype Id = Id(phone: string, number: nat)

  datatype InFlight = InFlight(request: Request, progress: Progress)

  /** A login whose code was accepted. */
  datatype Acceptance = Acceptance(phone: string, code: string, checkedAt: int)

  type Requests = map<Id, InFlight>

  /** `acceptances` only records the past; no step reads it. */
  datatype State = State(cache: CodeCache, requests: Requests, acceptances: set<Acceptance>)

  datatype Action = Start(id: Id, request: Request) | Step(id: Id)

  const Initial := State(map[], map[], {})

  /** The one cache write a step may make, to the record of its request's phone. */
  datatype Access = NoWrite | Put(data: CodeData) | Drop

  function Lookup(cache: CodeCache, phone: string): Option<CodeData> {
    if phone in cache then Some(cache[phone]) else None
  }

  function Store(cache: CodeCache, phone: string, access: Access): CodeCache {
    match access
    case NoWrite => cache
    case Put(data) => cache[phone := data]
    case Drop => cache - {phone}
  }

  /** The next step of a request. Only its first step looks at the record that the cache holds now. */
  function Advance(simulate: bool, r: Request, progress: Progress, record: Option<CodeData>): (Progress, Access) {
    match progress
    case Begun => (if r.known then GotRecord(record) else Over(PhoneNotFound), NoWrite)
    case GotRecord(found) => (if r.SendCode? then CheckWindow(simulate, r, found) else CheckCode(r, found), NoWrite)
    case Made(data) =>
      (if simulate || (r.SendCode? && r.smsAccepted) then Delivered(data) else Over(SmsFailed), NoWrite)
    case Delivered(data) => (Over(Stored), Put(data))
    case Purging => (Over(Purged), Drop)
    case Matching(_) => (Over(Matched), Drop)
    case Counting(data) => (Over(WrongCode), Put(data))
    case Over(_) => (progress, NoWrite)
  }

  function CheckWindow(simulate: bool, r: Request, found: Option<CodeData>): Progress
    requires r.SendCode?
  {
    if found.Some? && r.askedAt - found.value.createdAt < RESEND_WINDOW && !simulate then
      Over(TooSoon((RESEND_WINDOW - (r.askedAt - found.value.createdAt)) / 1000))
    else Made(NewRecord(r))
  }

  function NewRecord(r: Request): CodeData
    requires r.SendCode?
  {
    CodeData(r.code, r.createdAt, r.updatedAt, r.stampedAt + LIFETIME, 0)
  }

  function CheckCode(r: Request, found: Option<CodeData>): Progress
    requires r.Login?
  {
    if found.None? then Over(NoRecord)
    else
      var data := found.value;
      if r.checkedAt > data.expiresAt || data.countOfBadAttempts >= MAX_BAD_ATTEMPTS then Purging
      else if data.code == r.code then Matching(data)
      else Counting(data.(countOfBadAttempts := data.countOfBadAttempts + 1, updatedAt := r.updatedAt))
  }

  /** One step of one request. An action that does not fit the state changes nothing. */
  function Next(s: State, simulate: bool, a: Action): State {
    match a
    case Start(id, r) =>
      if id in s.requests || r.phone != id.phone then s
      else s.(requests := s.requests[id := InFlight(r, Begun)])
    case Step(id) =>
      if id !in s.requests then s
      else
        var InFlight(r, progress) := s.requests[id];
        var (next, access) := Advance(simulate, r, progress, Lookup(s.cache, id.phone));
        State(Store(s.cache, id.phone, access),
              s.requests[id := InFlight(r, next)],
              if progress.Matching? && r.Login? then s.acceptances + {Acceptance(id.phone, r.code, r.checkedAt)}
              else s.acceptances)
  }

  function After(simulate: bool, actions: seq<Action>): State {
    if actions == [] then Initial
    else Next(After(simulate, actions[..|actions| - 1]), simulate, actions[|actions| - 1])
  }

  // ----- What every interleaving keeps -----

  /**
   * The record is the one that the request made for the phone, up to its counter and time of update, and its
   * SMS was accepted or simulated.
   */
  ghost predicate SentBy(simulate: bool, phone: string, data: CodeData, r: Request) {
    && r.SendCode? && r.known && r.phone == phone && r.code == data.code
    && r.createdAt == data.createdAt && r.stampedAt + LIFETIME == data.expiresAt
    && (simulate || r.smsAccepted)
  }

  /** Some request has sent this record's code to the phone and, after that, stored it. */
  ghost predicate WasStored(requests: Requests, simulate: bool, phone: string, data: CodeData) {
    exists id ::
      id in requests && SentBy(simulate, phone, data, requests[id].request) && requests[id].progress == Over(Stored)
  }

  ghost predicate Genuine(requests: Requests, simulate: bool, phone: string, data: CodeData) {
    WasStored(requests, simulate, phone, data) && 0 <= data.countOfBadAttempts <= MAX_BAD_ATTEMPTS
  }

  ghost predicate GenuineLocals(requests: Requests, simulate: bool, f: InFlight) {
    var r := f.request;
    match f.progress
    case GotRecord(found) => r.known && (found.Some? ==> Genuine(requests, simulate, r.phone, found.value))
    case Made(data) => r.SendCode? && r.known && data == NewRecord(r)
    case Delivered(data) => r.SendCode? && data == NewRecord(r) && SentBy(simulate, r.phone, data, r)
    case Matching(data) =>
      Genuine(requests, simulate, r.phone, data) && r.Login? && data.code == r.code && r.checkedAt <= data.expiresAt
    case Counting(data) => Genuine(requests, simulate, r.phone, data)
    case _ => true
  }

  /** The accepted code was sent to that phone and stored, and had not expired when it was checked. */
  ghost predicate Warranted(requests: Requests, simulate: bool, a: Acceptance) {
    exists data :: WasStored(requests, simulate, a.phone, data) && data.code == a.code && a.checkedAt <= data.expiresAt
  }

  ghost predicate Inv(s: State, simulate: bool) {
    && (forall id :: id in s.requests ==> s.requests[id].request.phone == id.phone)
    && (forall phone :: phone in s.cache ==> Genuine(s.requests, simulate, phone, s.cache[phone]))
    && (forall id :: id in s.requests ==> GenuineLocals(s.requests, simulate, s.requests[id]))
    && (forall a :: a in s.acceptances ==> Warranted(s.requests, simulate, a))
  }

  lemma StoredStays(s: State, simulate: bool, a: Action, phone: string, data: CodeData)
    requires WasStored(s.requests, simulate, phone, data)
    ensures WasStored(Next(s, simulate, a).requests, simulate, phone, data)
  {
    var t := Next(s, simulate, a);
    var id :|
      && id in s.requests && SentBy(simulate, phone, data, s.requests[id].request)
      && s.requests[id].progress == Over(Stored);
    assert id in t.requests && t.requests[id] == s.requests[id];
  }

  lemma LocalsStay(s: State, simulate: bool, a: Action, f: InFlight)
    requires GenuineLocals(s.requests, simulate, f)
    ensures GenuineLocals(Next(s, simulate, a).requests, simulate, f)
  {
    match f.progress
    case GotRecord(Some(data)) => StoredStays(s, simulate, a, f.request.phone, data);
    case Matching(data) => StoredStays(s, simulate, a, f.request.phone, data);
    case Counting(data) => StoredStays(s, simulate, a, f.request.phone, data);
    case _ =>
  }

  /** What a moving request holds after its step is genuine if what it held and what it found was. */
  lemma AdvanceKeepsLocals(requests: Requests, simulate: bool, f: InFlight, record: Option<CodeData>)
    requires GenuineLocals(requests, simulate, f)
    requires record.Some? ==> Genuine(requests, simulate, f.request.phone, record.value)
    ensures var (next, access) := Advance(simulate, f.request, f.progress, record);
            && GenuineLocals(requests, simulate, InFlight(f.request, next))
            && (access.Put? ==> f.progress.Delivered? || Genuine(requests, simulate, f.request.phone, access.data))
  {
  }

  /** What the moving request holds, and what it puts into the cache, stays genuine. */
  lemma MoverStaysGenuine(s: State, simulate: bool, id: Id)
    requires Inv(s, simulate) && id in s.requests
    ensures var t := Next(s, simulate, Step(id));
            && GenuineLocals(t.requests, simulate, t.requests[id])
            && (id.phone in t.cache ==> Genuine(t.requests, simulate, id.phone, t.cache[id.phone]))
            && forall x :: x in t.acceptances && x !in s.acceptances ==> Warranted(t.requests, simulate, x)
  {
    var t, f := Next(s, simulate, Step(id)), s.requests[id];
    AdvanceKeepsLocals(s.requests, simulate, f, Lookup(s.cache, id.phone));
    LocalsStay(s, simulate, Step(id), t.requests[id]);
    if id.phone in s.cache { StoredStays(s, simulate, Step(id), id.phone, s.cache[id.phone]); }
    match f.progress
    case Delivered(data) => assert SentBy(simulate, id.phone, data, t.requests[id].request);
    case Counting(data) => StoredStays(s, simulate, Step(id), id.phone, data);
    case Matching(data) => StoredStays(s, simulate, Step(id), id.phone, data);
    case _ =>
  }

  lemma StepKeepsInv(s: State, simulate: bool, a: Action)
    requires Inv(s, simulate)
    ensures Inv(Next(s, simulate, a), simulate)
  {
    var t := Next(s, simulate, a);
    if a.Step? && a.id in s.requests { MoverStaysGenuine(s, simulate, a.id); }
    forall x | x in t.acceptances ensures Warranted(t.requests, simulate, x) {
      if x in s.acceptances { WarrantStays(s, simulate, a, x); }
    }
    forall phone | phone in t.cache ensures Genuine(t.requests, simulate, phone, t.cache[phone]) {
      CacheStays(s, simulate, a, phone);
    }
    forall id | id in t.requests ensures GenuineLocals(t.requests, simulate, t.requests[id]) {
      if id != a.id || t == s { LocalsStay(s, simulate, a, s.requests[id]); }
    }
  }

  lemma CacheStays(s: State, simulate: bool, a: Action, phone: string)
    requires Inv(s, simulate) && phone in Next(s, simulate, a).cache
    ensures Genuine(Next(s, simulate, a).requests, simulate, phone, Next(s, simulate, a).cache[phone])
  {
    if a.Step? && a.id in s.requests && phone == a.id.phone {
      MoverStaysGenuine(s, simulate, a.id);
    } else {
      StoredStays(s, simulate, a, phone, s.cache[phone]);
    }
  }

  lemma WarrantStays(s: State, simulate: bool, a: Action, x: Acceptance)
    requires Warranted(s.requests, simulate, x)
    ensures Warranted(Next(s, simulate, a).requests, simulate, x)
  {
    var data :| WasStored(s.requests, simulate, x.phone, data) && data.code == x.code && x.checkedAt <= data.expiresAt;
    StoredStays(s, simulate, a, x.phone, data);
  }

  /**
   * However requests interleave, each record in the cache, or read from it by a request, was sent to its phone
   * and stored after that, with at most three counted tries, and each accepted code was sent to that phone,
   * stored, and unexpired when checked.
   */
  lemma {:induction false} OnlyDeliveredCodes(simulate: bool, actions: seq<Action>)
    ensures Inv(After(simulate, actions), simulate)
  {
    if actions != [] {
      OnlyDeliveredCodes(simulate, actions[..|actions| - 1]);
      StepKeepsInv(After(simulate, actions[..|actions| - 1]), simulate, actions[|actions| - 1]);
    }
  }

  // ----- Phones do not disturb one another -----

  /** The actions of the requests for one phone. */
  function ActionsOf(actions: seq<Action>, phone: string): seq<Action> {
    if actions == [] then []
    else
      var before := ActionsOf(actions[..|actions| - 1], phone);
      if actions[|actions| - 1].id.phone == phone then before + [actions[|actions| - 1]] else before
  }

  /** The two states agree on the record and the requests of the phone. */
  ghost predicate SameFor(phone: string, s: State, t: State) {
    && Lookup(s.cache, phone) == Lookup(t.cache, phone)
    && (forall id: Id :: id.phone == phone ==> (id in s.requests <==> id in t.requests))
    && (forall id: Id :: id.phone == phone && id in s.requests ==> s.requests[id] == t.requests[id])
  }

  lemma StepOfAnother(s: State, simulate: bool, a: Action, phone: string)
    requires a.id.phone != phone
    ensures SameFor(phone, Next(s, simulate, a), s)
  {
  }

  lemma StepOfOwn(s: State, t: State, simulate: bool, a: Action)
    requires SameFor(a.id.phone, s, t)
    ensures SameFor(a.id.phone, Next(s, simulate, a), Next(t, simulate, a))
  {
  }

  /** On the phone, an interleaved run does just what the phone's own requests do when left alone. */
  lemma {:induction false} PhonesAreIndependent(simulate: bool, actions: seq<Action>, phone: string)
    ensures SameFor(phone, After(simulate, actions), After(simulate, ActionsOf(actions, phone)))
  {
    if actions != [] {
      var n := |actions| - 1;
      var own := ActionsOf(actions[..n], phone);
      PhonesAreIndependent(simulate, actions[..n], phone);
      if actions[n].id.phone == phone {
        StepOfOwn(After(simulate, actions[..n]), After(simulate, own), simulate, actions[n]);
        assert (own + [actions[n]])[..|own|] == own;
      } else {
        StepOfAnother(After(simulate, actions[..n]), simulate, actions[n], phone);
      }
    }
  }

  // ----- Requests that do not overlap -----

  /** The given actions, then one request's steps with nothing in between. */
  function WithScript(before: seq<Action>, id: Id, r: Request): seq<Action> {
    before + [Start(id, r)] + [Step(id)] + [Step(id)] + [Step(id)] + [Step(id)]
  }

  lemma AfterOne(simulate: bool, before: seq<Action>, a: Action)
    ensures After(simulate, before + [a]) == Next(After(simulate, before), simulate, a)
  {
    assert (before + [a])[..|before|] == before;
  }

  /** A request whose steps are not interrupted does what `Handle` says. */
  lemma UninterruptedIsHandle(simulate: bool, before: seq<Action>, id: Id, r: Request)
    requires id !in After(simulate, before).requests && r.phone == id.phone
    ensures var s, t := After(simulate, before), After(simulate, WithScript(before, id, r));
            && t.cache == Handle(s.cache, simulate, r).0
            && t.requests == s.requests[id := InFlight(r, Over(Handle(s.cache, simulate, r).1))]
  {
    var a1 := before + [Start(id, r)];
    var a2 := a1 + [Step(id)];
    var a3 := a2 + [Step(id)];
    var a4 := a3 + [Step(id)];
    AfterOne(simulate, before, Start(id, r));
    AfterOne(simulate, a1, Step(id));
    AfterOne(simulate, a2, Step(id));
    AfterOne(simulate, a3, Step(id));
    AfterOne(simulate, a4, Step(id));
    FourStepsAreHandle(simulate, r, After(simulate, before).cache);
  }

  /** The request's own part of a step: its progress and the cache. */
  function Local(simulate: bool, r: Request, at: (Progress, CodeCache)): (Progress, CodeCache) {
    var (next, access) := Advance(simulate, r, at.0, Lookup(at.1, r.phone));
    (next, Store(at.1, r.phone, access))
  }

  lemma FourStepsAreHandle(simulate: bool, r: Request, cache: CodeCache)
    ensures var two := Local(simulate, r, Local(simulate, r, (Begun, cache)));
            var four := Local(simulate, r, Local(simulate, r, two));
            four == (Over(Handle(cache, simulate, r).1), Handle(cache, simulate, r).0)
  {
    var one := Local(simulate, r, (Begun, cache));
    var two := Local(simulate, r, one);
    var three := Local(simulate, r, two);
    assert one.1 == cache && two.1 == cache;
  }

  /** Steps to go at most. */
  function Distance(progress: Progress): nat {
    match progress
    case Begun => 4
    case GotRecord(_) => 3
    case Made(_) => 2
    case Over(_) => 0
    case _ => 1
  }

  /** How a request ends when nothing comes between its remaining steps, and the cache then. */
  function Finished(simulate: bool, r: Request, at: (Progress, CodeCache)): (Progress, CodeCache)
    decreases Distance(at.0)
  {
    if at.0.Over? then at else Finished(simulate, r, Local(simulate, r, at))
  }

  lemma FinishedIsHandle(simulate: bool, r: Request, cache: CodeCache)
    ensures Finished(simulate, r, (Begun, cache)) == (Over(Handle(cache, simulate, r).1), Handle(cache, simulate, r).0)
  {
    var one := Local(simulate, r, (Begun, cache));
    var two := Local(simulate, r, one);
    var three := Local(simulate, r, two);
    StepFinishes(simulate, r, (Begun, cache));
    StepFinishes(simulate, r, one);
    StepFinishes(simulate, r, two);
    StepFinishes(simulate, r, three);
    FourStepsAreHandle(simulate, r, cache);
  }

  lemma {:induction false} StepFinishes(simulate: bool, r: Request, at: (Progress, CodeCache))
    ensures Finished(simulate, r, Local(simulate, r, at)) == Finished(simulate, r, at)
  {
    if at.0.Over? { assert Local(simulate, r, at) == at; }
  }

  /** Only the record of the request's own phone matters. */
  lemma {:induction false} FinishedOnRecord(simulate: bool, r: Request, progress: Progress, c: CodeCache, d: CodeCache)
    requires Lookup(c, r.phone) == Lookup(d, r.phone)
    ensures SameEnd(r.phone, Finished(simulate, r, (progress, c)), Finished(simulate, r, (progress, d)))
    decreases Distance(progress)
  {
    if !progress.Over? {
      var (next, x) := Local(simulate, r, (progress, c));
      var (_, y) := Local(simulate, r, (progress, d));
      FinishedOnRecord(simulate, r, next, x, y);
    }
  }

  ghost predicate SameEnd(phone: string, x: (Progress, CodeCache), y: (Progress, CodeCache)) {
    x.0 == y.0 && Lookup(x.1, phone) == Lookup(y.1, phone)
  }

  /** The last action starts a request for the phone. */
  predicate Starts(simulate: bool, actions: seq<Action>, phone: string)
    requires actions != []
  {
    var a := actions[|actions| - 1];
    a.Start? && a.id.phone == a.request.phone == phone && a.id !in After(simulate, actions[..|actions| - 1]).requests
  }

  /** The requests for the phone in the order they were started: their ids, and the sequential run they make. */
  function Ids(simulate: bool, actions: seq<Action>, phone: string): seq<Id> {
    if actions == [] then []
    else
      var before := Ids(simulate, actions[..|actions| - 1], phone);
      if Starts(simulate, actions, phone) then before + [actions[|actions| - 1].id] else before
  }

  function RunOf(simulate: bool, actions: seq<Action>, phone: string): seq<Request> {
    if actions == [] then []
    else
      var before := RunOf(simulate, actions[..|actions| - 1], phone);
      if Starts(simulate, actions, phone) then before + [actions[|actions| - 1].request] else before
  }

  ghost predicate AllOver(s: State, phone: string) {
    forall id :: id in s.requests && id.phone == phone ==> s.requests[id].progress.Over?
  }

  /** Whenever a request for the phone is started, all earlier ones for it are over. */
  ghost predicate NonOverlapping(simulate: bool, actions: seq<Action>, phone: string) {
    forall k :: 0 <= k < |actions| && Starts(simulate, actions[..k + 1], phone) ==>
      AllOver(After(simulate, actions[..k]), phone)
  }

  /** The i-th started request is known under its id; if it is over, then as in the sequential run. */
  ghost predicate EndsAsInRun(s: State, simulate: bool, ids: seq<Id>, run: seq<Request>, i: nat)
    requires i < |ids| == |run|
  {
    && ids[i] in s.requests && s.requests[ids[i]].request == run[i]
    && (s.requests[ids[i]].progress.Over? ==> s.requests[ids[i]].progress == Over(OutcomeAt(simulate, run, i)))
  }

  /** The phone's requests are those of the run, in its order, and all but the last are over. */
  ghost predicate Registered(s: State, simulate: bool, phone: string, ids: seq<Id>, run: seq<Request>) {
    && |ids| == |run|
    && (forall i :: 0 <= i < |run| ==> ids[i].phone == run[i].phone == phone && EndsAsInRun(s, simulate, ids, run, i))
    && (forall i, j :: 0 <= i < j < |run| ==> ids[i] != ids[j] && s.requests[ids[i]].progress.Over?)
    && (forall id :: id in s.requests && id.phone == phone ==> id in ids)
  }

  /**
   * Besides, the record is that of the run as far as it is over, and the last request is on its way to its end
   * in the run.
   */
  ghost predicate Serial(s: State, simulate: bool, phone: string, ids: seq<Id>, run: seq<Request>) {
    && Registered(s, simulate, phone, ids, run)
    && Lookup(s.cache, phone) == Lookup(CacheAfter(simulate, Settled(s, ids, run)), phone)
    && (run != [] ==> Underway(s, simulate, ids[|run| - 1], run))
  }

  /** The last request of the run would end as in the run. */
  ghost predicate Underway(s: State, simulate: bool, id: Id, run: seq<Request>)
    requires run != [] && id in s.requests
  {
    var r := run[|run| - 1];
    SameEnd(r.phone, Finished(simulate, r, (s.requests[id].progress, s.cache)),
            (Over(OutcomeAt(simulate, run, |run| - 1)), CacheAfter(simulate, run)))
  }

  /** The part of the run that is over. */
  function Settled(s: State, ids: seq<Id>, run: seq<Request>): seq<Request>
    requires |ids| == |run|
    requires forall i :: 0 <= i < |ids| ==> ids[i] in s.requests
  {
    if run != [] && !s.requests[ids[|run| - 1]].progress.Over? then run[..|run| - 1] else run
  }

  lemma {:induction false} UnderwayBySame(s: State, t: State, simulate: bool, id: Id, run: seq<Request>)
    requires run != [] && run[|run| - 1].phone == id.phone && id in s.requests && SameFor(id.phone, t, s)
    requires Underway(s, simulate, id, run)
    ensures id in t.requests && Underway(t, simulate, id, run)
  {
    FinishedOnRecord(simulate, run[|run| - 1], s.requests[id].progress, s.cache, t.cache);
  }

  lemma {:induction false} KeptBySame(s: State, t: State, simulate: bool, phone: string, ids: seq<Id>,
                                      run: seq<Request>)
    requires Serial(s, simulate, phone, ids, run) && SameFor(phone, t, s)
    ensures Serial(t, simulate, phone, ids, run)
  {
    forall i | 0 <= i < |run| ensures EndsAsInRun(t, simulate, ids, run, i) {
      assert EndsAsInRun(s, simulate, ids, run, i);
    }
    if run != [] { UnderwayBySame(s, t, simulate, ids[|run| - 1], run); }
    assert Settled(t, ids, run) == Settled(s, ids, run);
  }

  lemma {:induction false} HandleOnRecord(simulate: bool, r: Request, c: CodeCache, d: CodeCache)
    requires Lookup(c, r.phone) == Lookup(d, r.phone)
    ensures Lookup(Handle(c, simulate, r).0, r.phone) == Lookup(Handle(d, simulate, r).0, r.phone)
    ensures Handle(c, simulate, r).1 == Handle(d, simulate, r).1
  {
  }

  lemma {:induction false} UnderwayFromStart(s: State, simulate: bool, id: Id, before: seq<Request>, r: Request)
    requires id in s.requests && s.requests[id] == InFlight(r, Begun)
    requires Lookup(s.cache, r.phone) == Lookup(CacheAfter(simulate, before), r.phone)
    ensures Underway(s, simulate, id, before + [r])
  {
    assert (before + [r])[..|before|] == before;
    FinishedIsHandle(simulate, r, s.cache);
    HandleOnRecord(simulate, r, s.cache, CacheAfter(simulate, before));
  }

  lemma {:induction false} EndsKept(s: State, t: State, simulate: bool, ids: seq<Id>, run: seq<Request>, id: Id,
                                    r: Request, i: nat)
    requires |ids| == |run| && i < |run| && EndsAsInRun(s, simulate, ids, run, i)
    requires ids[i] in t.requests && t.requests[ids[i]] == s.requests[ids[i]]
    ensures EndsAsInRun(t, simulate, ids + [id], run + [r], i)
  {
    assert (run + [r])[..i] == run[..i];
  }

  lemma {:induction false} LastEnds(t: State, simulate: bool, ids: seq<Id>, run: seq<Request>, id: Id, r: Request)
    requires |ids| == |run| && id in t.requests && t.requests[id] == InFlight(r, Begun)
    ensures EndsAsInRun(t, simulate, ids + [id], run + [r], |run|)
  {
  }

  lemma {:induction false} NewIsNotKnown(s: State, simulate: bool, id: Id, ids: seq<Id>, run: seq<Request>, i: nat)
    requires Registered(s, simulate, id.phone, ids, run) && AllOver(s, id.phone) && id !in s.requests && i < |ids|
    ensures ids[i] != id && ids[i] in s.requests && s.requests[ids[i]].progress.Over?
    ensures EndsAsInRun(s, simulate, ids, run, i)
    ensures ids[i].phone == run[i].phone == id.phone
  {
    assert EndsAsInRun(s, simulate, ids, run, i);
  }

  lemma {:induction false} RegisteredByStart(s: State, simulate: bool, id: Id, r: Request, ids: seq<Id>,
                                             run: seq<Request>)
    requires Registered(s, simulate, id.phone, ids, run) && AllOver(s, id.phone)
    requires r.phone == id.phone && id !in s.requests
    ensures Registered(Next(s, simulate, Start(id, r)), simulate, id.phone, ids + [id], run + [r])
  {
    var t, n, more, runOn := Next(s, simulate, Start(id, r)), |run|, ids + [id], run + [r];
    LastEnds(t, simulate, ids, run, id, r);
    forall i | 0 <= i < n
      ensures EndsAsInRun(t, simulate, more, runOn, i) && more[i] != id && t.requests[more[i]].progress.Over?
      ensures more[i].phone == runOn[i].phone == id.phone
    {
      NewIsNotKnown(s, simulate, id, ids, run, i);
      EndsKept(s, t, simulate, ids, run, id, r, i);
    }
  }

  lemma {:induction false} AllOverIsSettled(s: State, simulate: bool, phone: string, ids: seq<Id>, run: seq<Request>)
    requires Registered(s, simulate, phone, ids, run) && AllOver(s, phone)
    ensures Settled(s, ids, run) == run
  {
    if run != [] { assert EndsAsInRun(s, simulate, ids, run, |run| - 1); }
  }

  lemma {:induction false} LastIsNotSettled(s: State, ids: seq<Id>, run: seq<Request>, id: Id, r: Request)
    requires |ids| == |run| && id in s.requests && !s.requests[id].progress.Over?
    requires forall i :: 0 <= i < |ids| ==> ids[i] in s.requests
    ensures Settled(s, ids + [id], run + [r]) == run
  {
    assert (run + [r])[..|run|] == run;
  }

  lemma {:induction false} KeptByStart(s: State, simulate: bool, id: Id, r: Request, ids: seq<Id>, run: seq<Request>)
    requires Serial(s, simulate, id.phone, ids, run) && AllOver(s, id.phone)
    requires r.phone == id.phone && id !in s.requests
    ensures Serial(Next(s, simulate, Start(id, r)), simulate, id.phone, ids + [id], run + [r])
  {
    var t := Next(s, simulate, Start(id, r));
    AllOverIsSettled(s, simulate, id.phone, ids, run);
    RegisteredByStart(s, simulate, id, r, ids, run);
    UnderwayFromStart(t, simulate, id, run, r);
    forall i | 0 <= i < |ids| ensures ids[i] in t.requests { assert EndsAsInRun(s, simulate, ids, run, i); }
    LastIsNotSettled(t, ids, run, id, r);
  }

  lemma {:induction false} RegisteredByStep(s: State, simulate: bool, id: Id, ids: seq<Id>, run: seq<Request>)
    requires Registered(s, simulate, id.phone, ids, run) && id in s.requests && !s.requests[id].progress.Over?
    requires run != [] && id == ids[|run| - 1] && Underway(Next(s, simulate, Step(id)), simulate, id, run)
    ensures Registered(Next(s, simulate, Step(id)), simulate, id.phone, ids, run)
  {
    var t := Next(s, simulate, Step(id));
    forall i | 0 <= i < |run| ensures EndsAsInRun(t, simulate, ids, run, i) {
      assert EndsAsInRun(s, simulate, ids, run, i);
    }
  }

  /** Before its last step, a request does not touch the record. */
  lemma {:induction false} StepUnderway(s: State, simulate: bool, id: Id, run: seq<Request>)
    requires run != [] && id in s.requests && !s.requests[id].progress.Over?
    requires s.requests[id].request == run[|run| - 1] && run[|run| - 1].phone == id.phone
    requires Underway(s, simulate, id, run)
    ensures var t := Next(s, simulate, Step(id));
            && Underway(t, simulate, id, run)
            && Lookup(t.cache, id.phone) ==
               (if t.requests[id].progress.Over? then Lookup(CacheAfter(simulate, run), id.phone)
                else Lookup(s.cache, id.phone))
  {
    var t, r, progress := Next(s, simulate, Step(id)), run[|run| - 1], s.requests[id].progress;
    StepFinishes(simulate, r, (progress, s.cache));
    assert (t.requests[id].progress, t.cache) == Local(simulate, r, (progress, s.cache));
  }

  lemma {:induction false} ActiveIsLast(s: State, simulate: bool, id: Id, ids: seq<Id>, run: seq<Request>)
    requires Registered(s, simulate, id.phone, ids, run) && id in s.requests && !s.requests[id].progress.Over?
    ensures run != [] && |ids| == |run| && id == ids[|run| - 1]
    ensures s.requests[id].request == run[|run| - 1] && run[|run| - 1].phone == id.phone
  {
    var k :| 0 <= k < |ids| && ids[k] == id;
    assert EndsAsInRun(s, simulate, ids, run, k);
  }

  lemma {:induction false} KeptByStep(s: State, simulate: bool, id: Id, ids: seq<Id>, run: seq<Request>)
    requires Serial(s, simulate, id.phone, ids, run) && id in s.requests && !s.requests[id].progress.Over?
    ensures Serial(Next(s, simulate, Step(id)), simulate, id.phone, ids, run)
  {
    ActiveIsLast(s, simulate, id, ids, run);
    StepUnderway(s, simulate, id, run);
    RegisteredByStep(s, simulate, id, ids, run);
  }

  lemma {:induction false} OtherwiseSame(s: State, simulate: bool, a: Action, phone: string)
    requires !(a.Start? && a.id.phone == a.request.phone == phone && a.id !in s.requests)
    requires !(a.Step? && a.id.phone == phone && a.id in s.requests && !s.requests[a.id].progress.Over?)
    ensures SameFor(phone, Next(s, simulate, a), s)
  {
    if a.id.phone != phone { StepOfAnother(s, simulate, a, phone); }
  }

  lemma {:induction false} ActionKeepsSerial(s: State, simulate: bool, a: Action, phone: string, ids: seq<Id>,
                                             run: seq<Request>)
    requires Serial(s, simulate, phone, ids, run)
    requires !(a.Start? && a.id.phone == a.request.phone == phone && a.id !in s.requests)
    ensures Serial(Next(s, simulate, a), simulate, phone, ids, run)
  {
    if a.id.phone == phone && a.Step? && a.id in s.requests && !s.requests[a.id].progress.Over? {
      KeptByStep(s, simulate, a.id, ids, run);
    } else {
      OtherwiseSame(s, simulate, a, phone);
      KeptBySame(s, Next(s, simulate, a), simulate, phone, ids, run);
    }
  }

  lemma {:induction false} PrefixNonOverlapping(simulate: bool, actions: seq<Action>, phone: string)
    requires actions != [] && NonOverlapping(simulate, actions, phone)
    ensures NonOverlapping(simulate, actions[..|actions| - 1], phone)
    ensures Starts(simulate, actions, phone) ==> AllOver(After(simulate, actions[..|actions| - 1]), phone)
  {
    var n := |actions| - 1;
    var pre := actions[..n];
    assert actions[..n + 1] == actions;
    forall k | 0 <= k < n && Starts(simulate, pre[..k + 1], phone) ensures AllOver(After(simulate, pre[..k]), phone) {
      assert pre[..k + 1] == actions[..k + 1] && pre[..k] == actions[..k];
    }
  }

  lemma {:induction false} NonOverlappingIsSerial(simulate: bool, actions: seq<Action>, phone: string)
    requires NonOverlapping(simulate, actions, phone)
    ensures Serial(After(simulate, actions), simulate, phone,
                   Ids(simulate, actions, phone), RunOf(simulate, actions, phone))
  {
    if actions != [] {
      var n := |actions| - 1;
      var pre := actions[..n];
      var s, ids, run := After(simulate, pre), Ids(simulate, pre, phone), RunOf(simulate, pre, phone);
      PrefixNonOverlapping(simulate, actions, phone);
      NonOverlappingIsSerial(simulate, actions[..n], phone);
      if Starts(simulate, actions, phone) {
        KeptByStart(s, simulate, actions[n].id, actions[n].request, ids, run);
      } else {
        ActionKeepsSerial(s, simulate, actions[n], phone, ids, run);
      }
    }
  }

  /**
   * When the requests for one phone do not overlap, then however requests for other phones come in between,
   * they are, in the order of their starts, the requests of a sequential run: those that are over ended as
   * there, all but the last are over, and the phone's record is the run's as far as it is over. So all bounds
   * proved for sequential runs hold.
   */
  lemma NonOverlappingRequestsAreSequential(simulate: bool, actions: seq<Action>, phone: string)
    requires NonOverlapping(simulate, actions, phone)
    ensures var s, ids, run := After(simulate, actions), Ids(simulate, actions, phone), RunOf(simulate, actions, phone);
            && |ids| == |run|
            && (forall id :: id in s.requests && id.phone == phone <==> id in ids)
            && (forall i :: 0 <= i < |run| ==> EndsAsInRun(s, simulate, ids, run, i))
            && (forall i, j :: 0 <= i < j < |run| ==> ids[i] != ids[j] && s.requests[ids[i]].progress.Over?)
            && Lookup(s.cache, phone) == Lookup(CacheAfter(simulate, Settled(s, ids, run)), phone)
  {
    NonOverlappingIsSerial(simulate, actions, phone);
  }
}
