/** Enrollment: tokens of limited use, the devices made with them, and the devices' requests. */
module Enrollment {
  import opened Wrappers

  datatype Token = Token(org: string, expiresAt: int, maxUses: int, usedCount: int, revoked: bool)

  datatype Device = Device(org: string, name: string, platform: string, enrolledAt: int, lastSeenAt: Option<int>, revoked: bool)

  /** What a device bearer token says. */
  datatype Claims = Claims(deviceId: string, org: string, issuedAt: int)

  /** The tables of the store, each by its primary key. */
  datatype Db = Db(tokens: map<string, Token>, devices: map<string, Device>)

  // ----- the transactions -----

  predicate Usable(t: Token, now: int) {
    !t.revoked && now <= t.expiresAt && (t.maxUses == 0 || t.usedCount < t.maxUses)
  }

  predicate MayEnroll(db: Db, hash: string, id: string, now: int) {
    hash in db.tokens && Usable(db.tokens[hash], now) && id !in db.devices
  }

  function Enrolled(db: Db, hash: string, id: string, name: string, platform: string, now: int): Db
    requires MayEnroll(db, hash, id, now)
  {
    var t := db.tokens[hash];
    Db(db.tokens[hash := t.(usedCount := t.usedCount + 1)],
       db.devices[id := Device(t.org, name, platform, now, None, false)])
  }

  // ----- a run of the system -----

  /** The database, every claim ever signed, and, for the record, the token each device came from. */
  datatype System = System(db: Db, signed: set<Claims>, via: map<string, string>)

  datatype Event =
    | Mint(hash: string, org: string, expiresAt: int, maxUses: int)
    | RevokeToken(hash: string)
    | Enroll(hash: string, id: string, name: string, platform: string, now: int, signOk: bool)
    | RevokeDevice(id: string)
    | Touch(id: string, now: int)

  function Step(s: System, e: Event): System {
    match e
    case Mint(hash, org, expiresAt, maxUses) =>
      if hash in s.db.tokens then s
      else s.(db := s.db.(tokens := s.db.tokens[hash := Token(org, expiresAt, maxUses, 0, false)]))
    case RevokeToken(hash) =>
      if hash in s.db.tokens then s.(db := s.db.(tokens := s.db.tokens[hash := s.db.tokens[hash].(revoked := true)])) else s
    case Enroll(hash, id, name, platform, now, signOk) =>
      if !MayEnroll(s.db, hash, id, now) then s
      else
        var org := s.db.tokens[hash].org;
        System(Enrolled(s.db, hash, id, name, platform, now),
               if signOk then s.signed + {Claims(id, org, now)} else s.signed,
               s.via[id := hash])
    case RevokeDevice(id) =>
      if id in s.db.devices then s.(db := s.db.(devices := s.db.devices[id := s.db.devices[id].(revoked := true)])) else s
    case Touch(id, now) =>
      if id in s.db.devices then s.(db := s.db.(devices := s.db.devices[id := s.db.devices[id].(lastSeenAt := Some(now))])) else s
  }

  const Empty: System := System(Db(map[], map[]), {}, map[])

  function Run(es: seq<Event>): System {
    if es == [] then Empty else Step(Run(es[..|es| - 1]), es[|es| - 1])
  }

  /** The devices that came from the token. */
  function DevicesVia(s: System, hash: string): set<string> {
    set id | id in s.via && s.via[id] == hash
  }

  ghost predicate TokenOk(s: System, hash: string)
    requires hash in s.db.tokens
  {
    var t := s.db.tokens[hash];
    && t.usedCount == |DevicesVia(s, hash)|
    && (t.maxUses > 0 ==> t.usedCount <= t.maxUses)
    && (t.maxUses < 0 ==> t.usedCount == 0)
  }

  ghost predicate DeviceOk(s: System, id: string)
    requires id in s.db.devices
  {
    id in s.via && s.via[id] in s.db.tokens && s.db.devices[id].org == s.db.tokens[s.via[id]].org
  }

  ghost predicate ClaimsOk(s: System, c: Claims) {
    && c.deviceId in s.db.devices && c.org == s.db.devices[c.deviceId].org
  }

  ghost predicate Inv(s: System) {
    && s.via.Keys == s.db.devices.Keys
    && (forall h :: h in s.db.tokens ==> TokenOk(s, h))
    && (forall id :: id in s.db.devices ==> DeviceOk(s, id))
    && (forall c :: c in s.signed ==> ClaimsOk(s, c))
  }

  lemma EnrollCounts(s: System, e: Event, h: string)
    requires s.via.Keys == s.db.devices.Keys && e.Enroll? && MayEnroll(s.db, e.hash, e.id, e.now)
    ensures |DevicesVia(Step(s, e), h)| == |DevicesVia(s, h)| + if h == e.hash then 1 else 0
  {
    var via' := s.via[e.id := e.hash];
    assert Step(s, e).via == via';
    if h == e.hash {
      assert (set id | id in via' && via'[id] == h) == DevicesVia(s, h) + {e.id};
    } else {
      assert (set id | id in via' && via'[id] == h) == DevicesVia(s, h);
    }
  }

  /** No device refers to a token that is not there. */
  lemma MintCounts(s: System, hash: string)
    requires Inv(s) && hash !in s.db.tokens
    ensures DevicesVia(s, hash) == {}
  {
    forall id | id in s.via
      ensures s.via[id] != hash
    {
      assert DeviceOk(s, id);
    }
  }

  lemma TokensStayOk(s: System, e: Event, h: string)
    requires Inv(s) && h in Step(s, e).db.tokens
    ensures TokenOk(Step(s, e), h)
  {
    if h in s.db.tokens {
      assert TokenOk(s, h);
      if e.Enroll? && MayEnroll(s.db, e.hash, e.id, e.now) {
        EnrollCounts(s, e, h);
      } else {
        assert Step(s, e).via == s.via;
      }
    } else {
      MintCounts(s, h);
      assert Step(s, e).via == s.via;
    }
  }

  lemma DevicesStayOk(s: System, e: Event, id: string)
    requires Inv(s) && id in Step(s, e).db.devices
    ensures DeviceOk(Step(s, e), id)
  {
    if id in s.db.devices {
      assert DeviceOk(s, id);
    }
  }

  lemma ClaimsStayOk(s: System, e: Event, c: Claims)
    requires Inv(s) && c in Step(s, e).signed
    ensures ClaimsOk(Step(s, e), c)
  {
    if c in s.signed {
      assert ClaimsOk(s, c);
    }
  }

  lemma StepKeepsInv(s: System, e: Event)
    requires Inv(s)
    ensures Inv(Step(s, e))
  {
    var s' := Step(s, e);
    forall h | h in s'.db.tokens
      ensures TokenOk(s', h)
    {
      TokensStayOk(s, e, h);
    }
    forall id | id in s'.db.devices
      ensures DeviceOk(s', id)
    {
      DevicesStayOk(s, e, id);
    }
    forall c | c in s'.signed
      ensures ClaimsOk(s', c)
    {
      ClaimsStayOk(s, e, c);
    }
  }

  /** In every run: a token's use count is the number of devices made with it and never exceeds a positive
      limit, every device belongs to its token's organization, and every claim ever signed names a device and
      its organization. */
  lemma {:induction false} RunKeepsInv(es: seq<Event>)
    ensures Inv(Run(es))
  {
    if es != [] {
      RunKeepsInv(es[..|es| - 1]);
      StepKeepsInv(Run(es[..|es| - 1]), es[|es| - 1]);
    }
  }

  // ----- what stays as it is -----

  /** The token is there to stay: its terms never change, and a revocation is never taken back. */
  ghost predicate SameTerms(t: Token, t': Token) {
    t'.org == t.org && t'.expiresAt == t.expiresAt && t'.maxUses == t.maxUses && (t.revoked ==> t'.revoked)
  }

  lemma RunLast(es: seq<Event>, fs: seq<Event>)
    ensures fs == [] ==> Run(es + fs) == Run(es)
    ensures fs != [] ==> Run(es + fs) == Step(Run(es + fs[..|fs| - 1]), fs[|fs| - 1])
  {
    if fs == [] {
      assert es + fs == es;
    } else {
      assert (es + fs)[..|es + fs| - 1] == es + fs[..|fs| - 1];
    }
  }

  lemma StepKeepsTerms(s: System, e: Event, hash: string)
    requires hash in s.db.tokens
    ensures hash in Step(s, e).db.tokens && SameTerms(s.db.tokens[hash], Step(s, e).db.tokens[hash])
  {
  }

  lemma {:induction false} TermsNeverChange(es: seq<Event>, fs: seq<Event>, hash: string)
    requires hash in Run(es).db.tokens
    ensures hash in Run(es + fs).db.tokens && SameTerms(Run(es).db.tokens[hash], Run(es + fs).db.tokens[hash])
  {
    RunLast(es, fs);
    if fs != [] {
      TermsNeverChange(es, fs[..|fs| - 1], hash);
      StepKeepsTerms(Run(es + fs[..|fs| - 1]), fs[|fs| - 1], hash);
    }
  }

  lemma StepKeepsUses(s: System, e: Event, hash: string)
    requires Inv(s) && hash in s.db.tokens
    requires s.db.tokens[hash].revoked || (e.Enroll? ==> e.now > s.db.tokens[hash].expiresAt)
    ensures hash in Step(s, e).db.tokens && Step(s, e).db.tokens[hash].usedCount == s.db.tokens[hash].usedCount
    ensures DevicesVia(Step(s, e), hash) == DevicesVia(s, hash)
  {
    if e.Enroll? && MayEnroll(s.db, e.hash, e.id, e.now) {
      assert e.hash != hash && e.id !in s.via;
    }
  }

  /** After a revocation, and once every attempt comes after the expiry, nothing more is counted or enrolled. */
  lemma {:induction false} UsesAreFrozen(es: seq<Event>, fs: seq<Event>, hash: string)
    requires hash in Run(es).db.tokens
    requires Run(es).db.tokens[hash].revoked
      || forall i :: 0 <= i < |fs| && fs[i].Enroll? ==> fs[i].now > Run(es).db.tokens[hash].expiresAt
    ensures hash in Run(es + fs).db.tokens && Run(es + fs).db.tokens[hash].usedCount == Run(es).db.tokens[hash].usedCount
    ensures DevicesVia(Run(es + fs), hash) == DevicesVia(Run(es), hash)
  {
    RunLast(es, fs);
    if fs != [] {
      var front := fs[..|fs| - 1];
      UsesAreFrozen(es, front, hash);
      TermsNeverChange(es, front, hash);
      RunKeepsInv(es + front);
      StepKeepsUses(Run(es + front), fs[|fs| - 1], hash);
    }
  }

  // ----- requests -----

  /** Whether a request with these claims is let through. */
  predicate Accepts(db: Db, c: Claims) {
    c.deviceId in db.devices && !db.devices[c.deviceId].revoked && db.devices[c.deviceId].org == c.org
  }

  /** In every run, a request made with any claims ever signed is accepted exactly if the device has not been
      revoked, and it then acts for the organization of the token the device came from. */
  lemma {:induction false} AcceptedExactly(es: seq<Event>, c: Claims)
    requires c in Run(es).signed
    ensures var s := Run(es);
      && c.deviceId in s.db.devices && c.deviceId in s.via && s.via[c.deviceId] in s.db.tokens
      && (Accepts(s.db, c) <==> !s.db.devices[c.deviceId].revoked)
      && c.org == s.db.tokens[s.via[c.deviceId]].org
  {
    RunKeepsInv(es);
    assert ClaimsOk(Run(es), c) && DeviceOk(Run(es), c.deviceId);
  }

  lemma StepKeepsRevoked(s: System, e: Event, id: string)
    requires id in s.db.devices && s.db.devices[id].revoked
    ensures id in Step(s, e).db.devices && Step(s, e).db.devices[id].revoked
  {
  }

  /** A revoked device stays revoked: none of its requests is ever accepted again. */
  lemma {:induction false} RevokedForGood(es: seq<Event>, fs: seq<Event>, c: Claims)
    requires c.deviceId in Run(es).db.devices && Run(es).db.devices[c.deviceId].revoked
    ensures c.deviceId in Run(es + fs).db.devices && Run(es + fs).db.devices[c.deviceId].revoked
    ensures !Accepts(Run(es + fs).db, c)
  {
    RunLast(es, fs);
    if fs != [] {
      RevokedForGood(es, fs[..|fs| - 1], c);
      StepKeepsRevoked(Run(es + fs[..|fs| - 1]), fs[|fs| - 1], c.deviceId);
    }
  }

  // ----- told from the events alone -----

  datatype Terms = Terms(org: string, expiresAt: int, maxUses: int)

  /** The terms of the first mint of the hash; another one fails. */
  function Minted(es: seq<Event>, hash: string): Option<Terms> {
    if es == [] then None
    else
      var earlier, e := Minted(es[..|es| - 1], hash), es[|es| - 1];
      if earlier == None && e.Mint? && e.hash == hash then Some(Terms(e.org, e.expiresAt, e.maxUses)) else earlier
  }

  /** Whether a revocation of the token came after its mint. */
  function TokenRevoked(es: seq<Event>, hash: string): bool {
    es != [] && (TokenRevoked(es[..|es| - 1], hash) ||
                 (es[|es| - 1] == Event.RevokeToken(hash) && Minted(es[..|es| - 1], hash) != None))
  }

  /** Whether an attempt after these events lets a new device in: the token is there and not revoked, it is not after the
      expiry, the limit is 0 or more than the devices let in before, and the id is new. */
  function LetsIn(es: seq<Event>, hash: string, id: string, now: int): bool
    decreases |es|, 1
  {
    && Minted(es, hash).Some? && !TokenRevoked(es, hash)
    && now <= Minted(es, hash).value.expiresAt
    && (Minted(es, hash).value.maxUses == 0 || LetIn(es, hash) < Minted(es, hash).value.maxUses)
    && DeviceAs(es, id) == None
  }

  /** How many devices the token has let in. */
  function LetIn(es: seq<Event>, hash: string): nat
    decreases |es|, 0
  {
    if es == [] then 0
    else
      var front, e := es[..|es| - 1], es[|es| - 1];
      LetIn(front, hash) + if e.Enroll? && e.hash == hash && LetsIn(front, hash, e.id, e.now) then 1 else 0
  }

  /** The device with this id, if an attempt let it in: as it was enrolled, then seen and revoked. */
  function DeviceAs(es: seq<Event>, id: string): Option<Device>
    decreases |es|, 0
  {
    if es == [] then None
    else
      var front, e := es[..|es| - 1], es[|es| - 1];
      var d := DeviceAs(front, id);
      if e.Enroll? && e.id == id && LetsIn(front, e.hash, id, e.now) then
        Some(Device(Minted(front, e.hash).value.org, e.name, e.platform, e.now, None, false))
      else if d.Some? && e == Event.RevokeDevice(id) then Some(d.value.(revoked := true))
      else if d.Some? && e.Touch? && e.id == id then Some(d.value.(lastSeenAt := Some(e.now)))
      else d
  }

  /** Whether this bearer token was ever signed. */
  function Issued(es: seq<Event>, c: Claims): bool {
    es != [] && (Issued(es[..|es| - 1], c) ||
                 (var front, e := es[..|es| - 1], es[|es| - 1];
                  e.Enroll? && e.signOk && LetsIn(front, e.hash, e.id, e.now) &&
                  c == Claims(e.id, Minted(front, e.hash).value.org, e.now)))
  }

  lemma {:induction false} TokenToldFromEvents(es: seq<Event>, hash: string)
    ensures hash in Run(es).db.tokens <==> Minted(es, hash).Some?
    ensures Minted(es, hash).Some? ==>
      var t := Minted(es, hash).value;
      Run(es).db.tokens[hash] == Token(t.org, t.expiresAt, t.maxUses, LetIn(es, hash), TokenRevoked(es, hash))
    ensures Minted(es, hash) == None ==> !TokenRevoked(es, hash) && LetIn(es, hash) == 0
    decreases |es|, 1
  {
    if es != [] {
      var front, e := es[..|es| - 1], es[|es| - 1];
      TokenToldFromEvents(front, hash);
      if e.Enroll? {
        AttemptToldFromEvents(front, e.hash, e.id, e.now);
      }
    }
  }

  lemma {:induction false} DeviceToldFromEvents(es: seq<Event>, id: string)
    ensures id in Run(es).db.devices <==> DeviceAs(es, id).Some?
    ensures DeviceAs(es, id).Some? ==> Run(es).db.devices[id] == DeviceAs(es, id).value
    decreases |es|, 1
  {
    if es != [] {
      var front, e := es[..|es| - 1], es[|es| - 1];
      DeviceToldFromEvents(front, id);
      if e.Enroll? {
        TokenToldFromEvents(front, e.hash);
        AttemptToldFromEvents(front, e.hash, e.id, e.now);
      }
    }
  }

  lemma {:induction false} AttemptToldFromEvents(es: seq<Event>, hash: string, id: string, now: int)
    ensures MayEnroll(Run(es).db, hash, id, now) <==> LetsIn(es, hash, id, now)
    decreases |es|, 2
  {
    TokenToldFromEvents(es, hash);
    DeviceToldFromEvents(es, id);
  }

  lemma {:induction false} ClaimsToldFromEvents(es: seq<Event>, c: Claims)
    ensures c in Run(es).signed <==> Issued(es, c)
  {
    if es != [] {
      var front, e := es[..|es| - 1], es[|es| - 1];
      ClaimsToldFromEvents(front, c);
      if e.Enroll? {
        TokenToldFromEvents(front, e.hash);
        AttemptToldFromEvents(front, e.hash, e.id, e.now);
      }
    }
  }

  /** An attempt succeeds exactly if its token was minted, no revocation of it came since, the attempt is not after the expiry,
      the limit is 0 or fewer devices than the limit came from it, and the id is new; otherwise it changes nothing. */
  lemma {:induction false} AttemptSucceedsExactly(es: seq<Event>, e: Event)
    requires e.Enroll?
    ensures var s, s' := Run(es), Run(es + [e]);
      && (e.id !in s.db.devices && e.id in s'.db.devices <==> LetsIn(es, e.hash, e.id, e.now))
      && (LetsIn(es, e.hash, e.id, e.now) ==>
            s'.db.devices[e.id] == Device(Minted(es, e.hash).value.org, e.name, e.platform, e.now, None, false))
      && (!LetsIn(es, e.hash, e.id, e.now) ==> s' == s)
  {
    assert (es + [e])[..|es|] == es;
    AttemptToldFromEvents(es, e.hash, e.id, e.now);
    TokenToldFromEvents(es, e.hash);
  }

  /** A request is let through exactly if its bearer token was signed for a device that was let in and is not revoked. */
  lemma {:induction false} RequestToldFromEvents(es: seq<Event>, c: Claims)
    requires Issued(es, c)
    ensures DeviceAs(es, c.deviceId).Some? && c.org == DeviceAs(es, c.deviceId).value.org
    ensures Accepts(Run(es).db, c) <==> !DeviceAs(es, c.deviceId).value.revoked
  {
    ClaimsToldFromEvents(es, c);
    AcceptedExactly(es, c);
    DeviceToldFromEvents(es, c.deviceId);
    RunKeepsInv(es);
    assert ClaimsOk(Run(es), c);
  }

  // ----- the store and the handlers -----

  /** The device was not enrolled or its token not signed; the server failed after that; or all is well. */
  datatype EnrollResult = Refused | ServerError | Answered(claims: Claims)

  datatype MintResult = UnknownOrg | MintFailed | Minted(expiresAt: int)

  class Store {
    var orgs: set<string>
    var tokens: map<string, Token>
    var devices: map<string, Device>
    var signed: set<Claims>
    ghost var via: map<string, string>

    ghost function View(): System
      reads this
    {
      System(Db(tokens, devices), signed, via)
    }

    constructor (orgs: set<string>)
      ensures View() == Empty && this.orgs == orgs
    {
      this.orgs, tokens, devices, signed, via := orgs, map[], map[], {}, map[];
    }

    /** Fails if the hash is taken already. */
    method CreateEnrollmentToken(hash: string, org: string, expiresAt: int, maxUses: int) returns (ok: bool)
      modifies this`tokens
      ensures View() == Step(old(View()), Mint(hash, org, expiresAt, maxUses))
      ensures ok <==> hash !in old(tokens)
    {
      if hash in tokens {
        return false;
      }
      tokens := tokens[hash := Token(org, expiresAt, maxUses, 0, false)];
      ok := true;
    }

    /** Times are in seconds; a lifetime that is not positive becomes a day. */
    method HandleMintToken(org: string, hash: string, expiresInHours: int, maxUses: int, now: int) returns (r: MintResult)
      modifies this`tokens
      ensures org !in orgs <==> r == UnknownOrg
      ensures r == MintFailed <==> org in orgs && hash in old(tokens)
      ensures r.Minted? ==> r.expiresAt == now + 3600 * (if expiresInHours <= 0 then 24 else expiresInHours)
      ensures View() == if r.Minted? then Step(old(View()), Mint(hash, org, r.expiresAt, maxUses)) else old(View())
    {
      if org !in orgs {
        return UnknownOrg;
      }
      var hours := expiresInHours;
      if hours <= 0 {
        hours := 24;
      }
      var expires := now + 3600 * hours;
      var ok := CreateEnrollmentToken(hash, org, expires, maxUses);
      r := if ok then Minted(expires) else MintFailed;
    }

    method RevokeToken(hash: string)
      modifies this`tokens
      ensures View() == Step(old(View()), Event.RevokeToken(hash))
    {
      if hash in tokens {
        tokens := tokens[hash := tokens[hash].(revoked := true)];
      }
    }

    /** One transaction: checks the token, inserts the device, counts the use. A rejection changes nothing. */
    method EnrollDevice(hash: string, id: string, name: string, platform: string, now: int) returns (r: Option<Device>)
      modifies this`tokens, this`devices, this`via
      ensures r.Some? <==> MayEnroll(Db(old(tokens), old(devices)), hash, id, now)
      ensures View() == Step(old(View()), Enroll(hash, id, name, platform, now, false))
      ensures r.Some? <==>
        && hash in old(tokens) && !old(tokens)[hash].revoked && now <= old(tokens)[hash].expiresAt
        && (old(tokens)[hash].maxUses == 0 || old(tokens)[hash].usedCount < old(tokens)[hash].maxUses)
        && id !in old(devices)
      ensures r.Some? ==> r.value == Device(old(tokens)[hash].org, name, platform, now, None, false)
      ensures r.Some? ==> id in devices && devices[id] == r.value
    {
      if hash !in tokens {
        return None;
      }
      var t := tokens[hash];
      if t.revoked || now > t.expiresAt || (t.maxUses != 0 && t.usedCount >= t.maxUses) {
        return None;
      }
      var d := Device(t.org, name, platform, now, None, false);
      if id in devices {
        return None;
      }
      devices := devices[id := d];
      tokens := tokens[hash := t.(usedCount := t.usedCount + 1)];
      via := via[id := hash];
      r := Some(d);
    }

    /** Enrolls, and signs a bearer token for the new device. The signature may fail after the commit, and writing
        out the server's key after the signature: the device stays enrolled, and the token stays signed, but neither
        is answered. */
    method HandleEnroll(hash: string, id: string, name: string, platform: string, now: int, signOk: bool, keyOk: bool)
      returns (r: EnrollResult)
      modifies this`tokens, this`devices, this`via, this`signed
      ensures View() == Step(old(View()), Enroll(hash, id, name, platform, now, signOk))
      ensures r == Refused <==> !signOk || !MayEnroll(Db(old(tokens), old(devices)), hash, id, now)
      ensures r == ServerError <==> signOk && !keyOk && MayEnroll(Db(old(tokens), old(devices)), hash, id, now)
      ensures r.Answered? ==> r.claims in signed
      ensures r.Answered? ==> id in devices && r.claims == Claims(id, devices[id].org, now)
    {
      var d := EnrollDevice(hash, id, name, platform, now);
      if d.None? || !signOk {
        return Refused;
      }
      var claims := Claims(id, d.value.org, now);
      signed := signed + {claims};
      if !keyOk {
        return ServerError;
      }
      r := Answered(claims);
    }

    method RevokeDevice(id: string)
      modifies this`devices
      ensures View() == Step(old(View()), Event.RevokeDevice(id))
    {
      if id in devices {
        devices := devices[id := devices[id].(revoked := true)];
      }
    }

    method TouchDevice(id: string, now: int)
      modifies this`devices
      ensures View() == Step(old(View()), Touch(id, now))
      ensures devices == if id in old(devices) then old(devices)[id := old(devices)[id].(lastSeenAt := Some(now))] else old(devices)
    {
      if id in devices {
        devices := devices[id := devices[id].(lastSeenAt := Some(now))];
      }
    }

    /** Lets a request through, as a device of an organization, or rejects it. `verified` is what the signature
        check makes of the bearer token: only what was signed is ever verified. */
    method RequireDevice(authz: string, verified: Option<Claims>, now: int) returns (r: Option<(string, string)>)
      requires verified.Some? ==> verified.value in signed
      modifies this`devices
      ensures r.Some? <==> "Bearer " < authz && verified.Some? && Accepts(old(View()).db, verified.value)
      ensures r.Some? ==> r.value == (verified.value.deviceId, verified.value.org)
      ensures r.Some? ==> r.value.0 in devices && devices[r.value.0].lastSeenAt == Some(now)
      ensures View() == if r.Some? then Step(old(View()), Touch(r.value.0, now)) else old(View())
    {
      var prefix := "Bearer ";
      var raw := if prefix <= authz then authz[|prefix|..] else authz;
      if raw == "" || raw == authz {
        return None;
      }
      if verified.None? {
        return None;
      }
      var claims := verified.value;
      if claims.deviceId !in devices {
        return None;
      }
      var dev := devices[claims.deviceId];
      if dev.revoked || dev.org != claims.org {
        return None;
      }
      TouchDevice(claims.deviceId, now);
      r := Some((claims.deviceId, dev.org));
    }
  }
}
