/** Distribution of the launch policy: the server numbers the versions and answers conditional requests; the
    device saves the policy first and its tag afterwards, and may be interrupted in between. */
module PolicySync {
  import opened Wrappers
  import opened Decimals

  datatype Bundle = Bundle(image: string, mountMode: string, denylist: Option<seq<string>>, version: nat)

  /** The policy as it is cached on the device. */
  datatype Policy = Policy(image: string, mountMode: string, denylist: Option<seq<string>>, version: nat)

  datatype Row = Row(bundle: Bundle, version: nat)

  // ----- tags -----

  /** The entity tag of a version. */
  function Etag(version: nat): string {
    "\"v" + Written(version) + "\""
  }

  lemma EtagIsInjective(m: nat, n: nat)
    requires Etag(m) == Etag(n)
    ensures m == n
  {
    var s, t := Etag(m), Etag(n);
    assert s[2..|s| - 1] == Written(m) && t[2..|t| - 1] == Written(n);
    SpelledWritten(m);
    SpelledWritten(n);
  }

  /** A tag of which the end was not written is not the tag of any version. */
  lemma TornTagIsNoTag(n: nat, k: nat, m: nat)
    requires k < |Etag(n)|
    ensures Etag(n)[..k] != Etag(m)
  {
    WrittenIsDigits(m);
    WrittenIsDigits(n);
    var s, t := Etag(n), Etag(m);
    assert t[|t| - 1] == '"';
    assert forall i :: 1 <= i < |s| - 1 ==> s[i] != '"';
  }

  // ----- the server's side -----

  const SeedBundle: Bundle := Bundle("redactr-base:local", "bind", Some([]), 0)

  function Current(policies: map<string, Row>, org: string): Row {
    if org in policies then policies[org] else Row(SeedBundle, 0)
  }

  /** The bundle as it is stored: defaults filled in, the version kept apart. */
  function Canonical(b: Bundle): Bundle {
    Bundle(b.image, if b.mountMode == "" then "bind" else b.mountMode, Some(if b.denylist.Some? then b.denylist.value else []), 0)
  }

  /** The bundle as it is sent out. */
  function WithVersion(raw: Bundle, version: nat): Bundle {
    raw.(denylist := Some(if raw.denylist.Some? then raw.denylist.value else []), version := version)
  }

  function Sent(row: Row): Bundle {
    WithVersion(row.bundle, row.version)
  }

  function Stored(b: Bundle): Policy {
    Policy(b.image, b.mountMode, b.denylist, b.version)
  }

  datatype Response = NotModified | Full(payload: Bundle, etag: string)

  function Answer(policies: map<string, Row>, org: string, ifNoneMatch: string): Response {
    var row := Current(policies, org);
    if ifNoneMatch == Etag(row.version) then NotModified else Full(Sent(row), Etag(row.version))
  }

  // ----- the system as steps -----

  /** Where a sync stands: nothing under way, an answer received, or the policy saved and its tag not yet. */
  datatype Pending = Idle | Received(payload: Bundle, etag: string) | PolicySaved(etag: string)

  /** One device of one organization, and the server. `signed` holds every payload the server ever signed. */
  datatype World = World(org: string, policies: map<string, Row>, signed: set<Bundle>,
                         policyFile: Option<Policy>, etagFile: string, pending: Pending)

  /** An administrator stores a bundle; the device asks; an answer is garbled under way; the device checks and
      saves the policy; it writes the first `n` bytes of the tag; it stops with an error or a crash. */
  datatype Event = Put(org: string, bundle: Bundle) | Ask | Garble(payload: Bundle) | Save | WriteTag(n: nat) | Stop

  function Step(w: World, e: Event): World {
    match e
    case Put(org, b) =>
      w.(policies := w.policies[org := Row(Canonical(b), Current(w.policies, org).version + 1)])
    case Ask =>
      if !w.pending.Idle? then w
      else
        (match Answer(w.policies, w.org, w.etagFile)
         case NotModified => w
         case Full(payload, etag) => w.(pending := Received(payload, etag), signed := w.signed + {payload}))
    case Garble(payload) =>
      if w.pending.Received? && payload !in w.signed then w.(pending := w.pending.(payload := payload)) else w
    case Save =>
      if !w.pending.Received? then w
      else if w.pending.payload !in w.signed then w.(pending := Idle)
      else w.(policyFile := Some(Stored(w.pending.payload)), pending := PolicySaved(w.pending.etag))
    case WriteTag(n) =>
      if w.pending.PolicySaved? && n <= |w.pending.etag| then w.(etagFile := w.pending.etag[..n], pending := Idle) else w
    case Stop => w.(pending := Idle)
  }

  function RunEvents(w: World, es: seq<Event>): World {
    if es == [] then w else Step(RunEvents(w, es[..|es| - 1]), es[|es| - 1])
  }

  /** A device that has just enrolled, whatever policies the server has. */
  ghost predicate Initial(w: World) {
    w.policyFile == None && w.etagFile == "" && w.pending == Idle
  }

  /** What the server would send now. */
  function CurrentBundle(w: World): Bundle {
    Sent(Current(w.policies, w.org))
  }

  /** Not newer than the server's version, and the very same if it has the same number. */
  ghost predicate NotAhead(w: World, b: Bundle) {
    b.version <= CurrentBundle(w).version && (b.version == CurrentBundle(w).version ==> b == CurrentBundle(w))
  }

  function CachedVersion(w: World): int {
    if w.policyFile == None then -1 else w.policyFile.value.version
  }

  ghost predicate CacheNotAhead(w: World) {
    w.policyFile.Some? ==> exists b :: w.policyFile.value == Stored(b) && NotAhead(w, b)
  }

  /** A whole tag on disk is not newer than the policy on disk. */
  ghost predicate TagBehindCache(w: World) {
    forall n: nat :: w.etagFile == Etag(n) ==> n <= CachedVersion(w)
  }

  ghost predicate PendingOk(w: World) {
    match w.pending
    case Idle => true
    case Received(payload, etag) =>
      payload in w.signed ==>
        NotAhead(w, payload) && etag == Etag(payload.version) && CachedVersion(w) <= payload.version
    case PolicySaved(etag) => w.policyFile.Some? && etag == Etag(w.policyFile.value.version)
  }

  ghost predicate Inv(w: World) {
    CacheNotAhead(w) && TagBehindCache(w) && PendingOk(w)
  }

  lemma PutKeepsInv(w: World, org: string, b: Bundle)
    requires Inv(w)
    ensures Inv(Step(w, Put(org, b)))
  {
    var w' := Step(w, Put(org, b));
    forall x | NotAhead(w, x)
      ensures NotAhead(w', x)
    {
    }
  }

  lemma WriteTagKeepsInv(w: World, n: nat)
    requires Inv(w) && w.pending.PolicySaved? && n <= |w.pending.etag|
    ensures Inv(Step(w, WriteTag(n)))
  {
    var w', v := Step(w, WriteTag(n)), w.policyFile.value.version;
    forall m: nat | w'.etagFile == Etag(m)
      ensures m <= CachedVersion(w')
    {
      if n < |Etag(v)| {
        TornTagIsNoTag(v, n, m);
      } else {
        assert Etag(v)[..n] == Etag(v);
        EtagIsInjective(v, m);
      }
    }
  }

  lemma EmptyIsNoTag(n: nat)
    ensures Etag(n) != ""
  {
  }

  /** Every step keeps the invariant, and never takes the device to an older policy. */
  lemma StepKeepsInv(w: World, e: Event)
    requires Inv(w)
    ensures Inv(Step(w, e))
    ensures CachedVersion(w) <= CachedVersion(Step(w, e))
  {
    var w' := Step(w, e);
    match e
    case Put(org, b) => PutKeepsInv(w, org, b);
    case WriteTag(n) =>
      if w.pending.PolicySaved? && n <= |w.pending.etag| {
        WriteTagKeepsInv(w, n);
      }
    case Save =>
      if w.pending.Received? && w.pending.payload in w.signed {
        assert w'.policyFile.value == Stored(w.pending.payload) && NotAhead(w', w.pending.payload);
      }
    case Ask =>
    case Garble(payload) =>
    case Stop =>
  }

  lemma {:induction false} RunKeepsInv(w: World, es: seq<Event>)
    requires Initial(w)
    ensures Inv(RunEvents(w, es)) && RunEvents(w, es).org == w.org
  {
    if es == [] {
      forall n: nat
        ensures w.etagFile != Etag(n)
      {
        EmptyIsNoTag(n);
      }
    } else {
      RunKeepsInv(w, es[..|es| - 1]);
      StepKeepsInv(RunEvents(w, es[..|es| - 1]), es[|es| - 1]);
    }
  }

  /** Whenever the server answers "not modified", the policy on the device is the one the server has now:
      after any puts, syncs, lost or torn tags, errors and crashes. */
  lemma NotModifiedMeansCurrent(w: World, es: seq<Event>)
    requires Initial(w)
    ensures var v := RunEvents(w, es);
      Answer(v.policies, v.org, v.etagFile).NotModified? ==> v.policyFile == Some(Stored(CurrentBundle(v)))
  {
    RunKeepsInv(w, es);
  }

  /** The version on the device never goes back. */
  lemma {:induction false} VersionNeverDecreases(w: World, es: seq<Event>, n: nat)
    requires Initial(w) && n <= |es|
    ensures CachedVersion(RunEvents(w, es[..n])) <= CachedVersion(RunEvents(w, es))
    decreases |es|
  {
    if n < |es| {
      VersionNeverDecreases(w, es[..|es| - 1], n);
      assert es[..|es| - 1][..n] == es[..n];
      RunKeepsInv(w, es[..|es| - 1]);
      StepKeepsInv(RunEvents(w, es[..|es| - 1]), es[|es| - 1]);
    } else {
      assert es[..n] == es;
    }
  }

  /** From wherever it stands, one undisturbed sync brings the device up to date, and the next one is
      answered "not modified". */
  lemma UndisturbedSyncIsCurrent(w: World, es: seq<Event>, n: nat)
    requires Initial(w)
    requires n == |Etag(Current(RunEvents(w, es).policies, w.org).version)|
    ensures var v := Step(Step(Step(Step(RunEvents(w, es), Stop), Ask), Save), WriteTag(n));
      && v.policyFile == Some(Stored(CurrentBundle(v)))
      && Answer(v.policies, v.org, v.etagFile) == NotModified
  {
    RunKeepsInv(w, es);
    var u := Step(RunEvents(w, es), Stop);
    StepKeepsInv(RunEvents(w, es), Stop);
    var row := Current(u.policies, u.org);
    assert Etag(row.version)[..n] == Etag(row.version);
  }

  // ----- what arrives on the device -----

  /** The device after one sync that nothing disturbs. */
  function AfterSync(w: World): World {
    var asked := Step(Step(w, Stop), Ask);
    Step(Step(asked, Save), WriteTag(|Etag(Current(w.policies, w.org).version)|))
  }

  /** The bundle an administrator last put for the organization, and how many were put. */
  function LastBundle(es: seq<Event>, org: string): Option<Bundle> {
    if es == [] then None
    else if es[|es| - 1].Put? && es[|es| - 1].org == org then Some(es[|es| - 1].bundle)
    else LastBundle(es[..|es| - 1], org)
  }

  function CountBundles(es: seq<Event>, org: string): nat {
    if es == [] then 0
    else CountBundles(es[..|es| - 1], org) + if es[|es| - 1].Put? && es[|es| - 1].org == org then 1 else 0
  }

  /** The row holds the image and the mount mode, "bind" if none was given, the names on the denylist, and the version. */
  ghost predicate RowHolds(row: Row, last: Option<Bundle>, count: nat) {
    match last
    case None => row.bundle.image == "redactr-base:local" && row.bundle.mountMode == "bind" && row.bundle.denylist == Some([]) && row.version == 0
    case Some(b) =>
      && row.bundle.image == b.image && row.bundle.mountMode == (if b.mountMode == "" then "bind" else b.mountMode)
      && row.bundle.denylist == Some(if b.denylist == None then [] else b.denylist.value) && row.version == count
  }

  lemma {:induction false} RowToldFromPuts(w: World, es: seq<Event>, org: string)
    requires Initial(w) && w.policies == map[]
    ensures RowHolds(Current(RunEvents(w, es).policies, org), LastBundle(es, org), CountBundles(es, org))
    ensures LastBundle(es, org) == None <==> CountBundles(es, org) == 0
  {
    if es != [] {
      RowToldFromPuts(w, es[..|es| - 1], org);
    }
  }

  /** The policy that a bundle makes, as the `count`-th one put: its image, its mount mode, "bind" if there is none, the
      names on its denylist; or what a device gets when none was put. */
  ghost function Expected(last: Option<Bundle>, count: nat): Policy {
    match last
    case None => Policy("redactr-base:local", "bind", Some([]), 0)
    case Some(b) =>
      Policy(b.image, if b.mountMode == "" then "bind" else b.mountMode, Some(if b.denylist == None then [] else b.denylist.value), count)
  }

  lemma PinExpected(row: Row, last: Option<Bundle>, count: nat, pinned: string, p: Option<Policy>, q: Option<Policy>)
    requires RowHolds(row, last, count) && (last == None ==> count == 0)
    requires p == Some(Expected(last, count)) && q == Some(Expected(Some(row.bundle.(image := pinned)), count + 1))
    ensures p.Some? && q == Some(p.value.(image := pinned, version := p.value.version + 1))
  {
  }

  /** Whatever happened before, after an undisturbed sync the device has what was last put for its organization: the image,
      the mount mode, exactly the names on the denylist, none if it was absent, and as version the number of
      bundles put; or the seed with version 0 if nothing was. */
  lemma {:induction false} LastBundleArrives(w: World, es: seq<Event>)
    requires Initial(w) && w.policies == map[]
    ensures AfterSync(RunEvents(w, es)).policyFile == Some(Expected(LastBundle(es, w.org), CountBundles(es, w.org)))
  {
    var v := RunEvents(w, es);
    RowToldFromPuts(w, es, w.org);
    RunKeepsInv(w, es);
    UndisturbedSyncIsCurrent(w, es, |Etag(Current(v.policies, w.org).version)|);
  }

  lemma PutSnoc(w: World, es: seq<Event>, org: string, b: Bundle)
    ensures RunEvents(w, es + [Put(org, b)]) == Step(RunEvents(w, es), Put(org, b))
    ensures LastBundle(es + [Put(org, b)], org) == Some(b)
    ensures CountBundles(es + [Put(org, b)], org) == CountBundles(es, org) + 1
  {
    assert (es + [Put(org, b)])[..|es|] == es;
  }

  lemma PutArrives(w: World, es: seq<Event>, b: Bundle)
    requires Initial(w) && w.policies == map[]
    ensures AfterSync(Step(RunEvents(w, es), Put(w.org, b))).policyFile == Some(Expected(Some(b), CountBundles(es, w.org) + 1))
  {
    PutSnoc(w, es, w.org, b);
    LastBundleArrives(w, es + [Put(w.org, b)]);
  }

  /** A bundle stored with another image, and otherwise as it is, changes just the image and the version on the device. */
  lemma {:induction false} PinnedImageArrives(w: World, es: seq<Event>, pinned: string)
    requires Initial(w) && w.policies == map[]
    ensures var v := RunEvents(w, es);
      var stored := Current(v.policies, w.org).bundle;
      var before, after := AfterSync(v).policyFile, AfterSync(Step(v, Put(w.org, stored.(image := pinned)))).policyFile;
      && before.Some? && after == Some(before.value.(image := pinned, version := before.value.version + 1))
  {
    var v := RunEvents(w, es);
    var row := Current(v.policies, w.org);
    RowToldFromPuts(w, es, w.org);
    LastBundleArrives(w, es);
    PutArrives(w, es, row.bundle.(image := pinned));
    PinExpected(row, LastBundle(es, w.org), CountBundles(es, w.org), pinned,
                AfterSync(v).policyFile, AfterSync(Step(v, Put(w.org, row.bundle.(image := pinned)))).policyFile);
  }

  /** A tag is a quote, the letter v, the digits of the version, and a quote. */
  lemma EtagExactly(n: nat)
    ensures var t := Etag(n);
      |t| >= 4 && t[0] == '"' && t[1] == 'v' && AllDigits(t[2..|t| - 1]) && Spelled(t[2..|t| - 1]) == n && t[|t| - 1] == '"'
  {
    WrittenIsDigits(n);
    SpelledWritten(n);
    assert Etag(n)[2..|Etag(n)| - 1] == Written(n);
  }
}
