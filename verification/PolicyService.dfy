/** The objects that carry out policy distribution: the server's store and handlers, and the device. */
module PolicyService {
  import opened Wrappers
  import opened PolicySync

  datatype PutResult = UnknownOrg | BadRequest | Accepted(version: nat)

  class Server {
    var orgs: set<string>
    var policies: map<string, Row>
    var signed: set<Bundle>

    constructor (orgs: set<string>)
      ensures this.orgs == orgs && policies == map[] && signed == {}
    {
      this.orgs, policies, signed := orgs, map[], {};
    }

    /** The stored bundle and its version; the seed with version 0 if none is set. */
    method GetPolicy(org: string) returns (raw: Bundle, version: nat)
      ensures Row(raw, version) == Current(policies, org)
    {
      if org !in policies {
        return SeedBundle, 0;
      }
      return policies[org].bundle, policies[org].version;
    }

    /** Stores a bundle under the next version. */
    method PutPolicy(org: string, bundle: Bundle) returns (version: nat)
      modifies this`policies
      ensures version == Current(old(policies), org).version + 1
      ensures policies == old(policies)[org := Row(bundle, version)]
    {
      version := if org in policies then policies[org].version else 0;
      version := version + 1;
      policies := policies[org := Row(bundle, version)];
    }

    /** Accepts a bundle from an administrator. */
    method HandlePutPolicy(org: string, body: Option<Bundle>) returns (r: PutResult)
      modifies this`policies
      ensures org !in orgs <==> r == UnknownOrg
      ensures org in orgs && (body.None? || body.value.image == "" || body.value.mountMode == "") <==> r == BadRequest
      ensures !r.Accepted? ==> policies == old(policies)
      ensures r.Accepted? ==> r.version == Current(old(policies), org).version + 1
      ensures r.Accepted? ==> policies == old(policies)[org := Row(Canonical(body.value), r.version)]
      ensures r.Accepted? ==> org in policies && RowHolds(policies[org], body, r.version)
    {
      if org !in orgs {
        return UnknownOrg;
      }
      if body.None? || body.value.image == "" || body.value.mountMode == "" {
        return BadRequest;
      }
      var version := PutPolicy(org, Canonical(body.value));
      r := Accepted(version);
    }

    /** Puts a freshly built image into the policy, and leaves the rest of it as it is. */
    method PinImage(org: string, pinned: string) returns (version: nat)
      modifies this`policies
      ensures version == Current(old(policies), org).version + 1
      ensures policies == old(policies)[org := Row(Canonical(Current(old(policies), org).bundle.(image := pinned)), version)]
      ensures var was := Current(old(policies), org).bundle;
        RowHolds(policies[org], Some(Bundle(pinned, was.mountMode, was.denylist, was.version)), version)
    {
      var raw, _ := GetPolicy(org);
      version := PutPolicy(org, Canonical(raw.(image := pinned)));
    }

    /** Answers a device that may already have a version. */
    method HandleGetPolicy(org: string, ifNoneMatch: string) returns (r: Response)
      modifies this`signed
      ensures r == Answer(policies, org, ifNoneMatch)
      ensures signed == old(signed) + if r.Full? then {r.payload} else {}
    {
      var raw, version := GetPolicy(org);
      var etag := Etag(version);
      if ifNoneMatch == etag {
        return NotModified;
      }
      var payload := WithVersion(raw, version);
      signed := signed + {payload};
      r := Full(payload, etag);
    }
  }

  /** What may go wrong during a sync. */
  datatype Fault = NoFault | Offline | AnswerLost | Garbled(payload: Bundle) | SaveFails | CrashBeforeTag | TagTorn(n: nat)

  /** A sync as steps of the system. */
  function Synced(w: World, fault: Fault): World {
    var tag := Etag(Current(w.policies, w.org).version);
    match fault
    case NoFault => Step(Step(Step(w, Ask), Save), WriteTag(|tag|))
    case Offline => w
    case AnswerLost => Step(Step(w, Ask), Stop)
    case Garbled(payload) => Step(Step(Step(Step(w, Ask), Garble(payload)), Save), WriteTag(|tag|))
    case SaveFails => Step(Step(w, Ask), Stop)
    case CrashBeforeTag => Step(Step(Step(w, Ask), Save), Stop)
    case TagTorn(n) => Step(Step(Step(w, Ask), Save), WriteTag(if n < |tag| then n else |tag|))
  }

  class Device {
    const org: string
    var policyFile: Option<Policy>
    var etagFile: string  // empty if there is none

    constructor (org: string)
      ensures this.org == org && policyFile == None && etagFile == ""
    {
      this.org, policyFile, etagFile := org, None, "";
    }

    ghost function View(server: Server): World
      reads this, server
    {
      World(org, server.policies, server.signed, policyFile, etagFile, Idle)
    }

    /** Fetches, verifies and saves the policy, and then its tag. Any failure leaves what is cached. */
    method Sync(server: Server, enrolled: bool, fault: Fault) returns (ok: bool)
      modifies this, server`signed
      ensures View(server) == if enrolled then Synced(old(View(server)), fault) else old(View(server))
      ensures enrolled && ok && Inv(old(View(server))) ==> policyFile == Some(Stored(CurrentBundle(View(server))))
      ensures enrolled && ok && Inv(old(View(server))) ==>
        var row := Current(server.policies, org);
        policyFile == Some(Policy(row.bundle.image, row.bundle.mountMode,
                                  Some(if row.bundle.denylist == None then [] else row.bundle.denylist.value), row.version))
    {
      if !enrolled {
        return true;
      }
      if fault == Offline {
        return false;
      }
      var resp := server.HandleGetPolicy(org, etagFile);
      if fault == AnswerLost {
        return false;
      }
      if resp.NotModified? {
        return true;
      }
      var bundle := resp.payload;
      if fault.Garbled? && fault.payload !in server.signed {
        bundle := fault.payload;
      }
      if bundle !in server.signed {
        return false;
      }
      if fault == SaveFails {
        return false;
      }
      policyFile := Some(Policy(bundle.image, bundle.mountMode, bundle.denylist, bundle.version));
      if fault == CrashBeforeTag {
        return false;
      }
      var written := |resp.etag|;
      if fault.TagTorn? && fault.n < |resp.etag| {
        written := fault.n;
      }
      etagFile := resp.etag[..written];
      ok := true;
    }
  }

  /** The steps a sync takes. */
  function EventsOf(w: World, fault: Fault): seq<Event> {
    var tag := Etag(Current(w.policies, w.org).version);
    match fault
    case NoFault => [Ask, Save, WriteTag(|tag|)]
    case Offline => []
    case AnswerLost => [Ask, Stop]
    case Garbled(payload) => [Ask, Garble(payload), Save, WriteTag(|tag|)]
    case SaveFails => [Ask, Stop]
    case CrashBeforeTag => [Ask, Save, Stop]
    case TagTorn(n) => [Ask, Save, WriteTag(if n < |tag| then n else |tag|)]
  }

  lemma {:induction false} RunAppend(w: World, es: seq<Event>, fs: seq<Event>)
    ensures RunEvents(w, es + fs) == RunEvents(RunEvents(w, es), fs)
  {
    if fs == [] {
      assert es + fs == es;
    } else {
      var front, last := fs[..|fs| - 1], fs[|fs| - 1];
      assert (es + fs)[..|es + fs| - 1] == es + front;
      RunAppend(w, es, front);
    }
  }

  lemma RunFirst(w: World, e: Event, es: seq<Event>)
    ensures RunEvents(w, [e] + es) == RunEvents(Step(w, e), es)
  {
    RunAppend(w, [e], es);
    assert [e][..0] == [];
  }

  /** Whatever goes wrong, a sync is a run of steps: what holds after every run of steps holds after every
      sequence of puts and syncs. */
  lemma SyncIsARun(w: World, fault: Fault)
    ensures Synced(w, fault) == RunEvents(w, EventsOf(w, fault))
  {
    var es := EventsOf(w, fault);
    if es != [] {
      RunFirst(w, es[0], es[1..]);
      var w1 := Step(w, es[0]);
      RunFirst(w1, es[1], es[2..]);
      var w2 := Step(w1, es[1]);
      assert es == [es[0]] + es[1..] && es[1..] == [es[1]] + es[2..];
      if |es| > 2 {
        RunFirst(w2, es[2], es[3..]);
        assert es[2..] == [es[2]] + es[3..];
        if |es| > 3 {
          RunFirst(Step(w2, es[2]), es[3], []);
          assert es[3..] == [es[3]] + [];
        }
      }
    }
  }
}
