/** The transparent-routing controller: OS rules, the controller's memory and the saved state. */
module Firewall {
  import opened Wrappers
  import Sorting

  // ----- sorted lists of strings -----

  /** Lexicographic order by character code, as Go compares strings. */
  predicate StringLe(a: string, b: string) {
    a == [] || (b != [] && (a[0] < b[0] || (a[0] == b[0] && StringLe(a[1..], b[1..]))))
  }

  lemma {:induction false} StringLeTotal(a: string, b: string)
    ensures StringLe(a, b) || StringLe(b, a)
  {
    if a != [] && b != [] {
      StringLeTotal(a[1..], b[1..]);
    }
  }

  lemma {:induction false} StringLeAntisymmetric(a: string, b: string)
    requires StringLe(a, b) && StringLe(b, a)
    ensures a == b
  {
    if a != [] {
      StringLeAntisymmetric(a[1..], b[1..]);
      assert a == [a[0]] + a[1..] && b == [b[0]] + b[1..];
    }
  }

  lemma {:induction false} StringLeTransitive(a: string, b: string, c: string)
    requires StringLe(a, b) && StringLe(b, c)
    ensures StringLe(a, c)
  {
    if a != [] && a[0] == b[0] && b[0] == c[0] {
      StringLeTransitive(a[1..], b[1..], c[1..]);
    }
  }

  lemma StringLeIsAnOrder()
    ensures Sorting.TotalPreorder(StringLe)
  {
    forall x, y ensures StringLe(x, y) || StringLe(y, x) {
      StringLeTotal(x, y);
    }
    forall x, y, z | StringLe(x, y) && StringLe(y, z) ensures StringLe(x, z) {
      StringLeTransitive(x, y, z);
    }
  }

  /** Told without recursion: `a` is a prefix of `b`, or smaller at the first place where they differ. */
  lemma {:induction false} StringLeExactly(a: string, b: string)
    ensures StringLe(a, b) <==> a <= b || exists k :: 0 <= k < |a| && k < |b| && a[..k] == b[..k] && a[k] < b[k]
  {
    if a != [] && b != [] && a[0] == b[0] {
      StringLeExactly(a[1..], b[1..]);
      if StringLe(a, b) && !(a <= b) {
        FirstDifferenceInTail(a, b);
      }
      if k :| 0 <= k < |a| && k < |b| && a[..k] == b[..k] && a[k] < b[k] {
        assert a[1..][..k - 1] == a[..k][1..] && b[1..][..k - 1] == b[..k][1..];
        assert a[1..][k - 1] < b[1..][k - 1];
      }
    } else if a != [] && b != [] && a[0] < b[0] {
      assert a[..0] == b[..0];
    }
  }

  lemma FirstDifferenceInTail(a: string, b: string)
    requires a != [] && b != [] && a[0] == b[0]
    requires a[1..] <= b[1..] ||
      exists k :: 0 <= k < |a[1..]| && k < |b[1..]| && a[1..][..k] == b[1..][..k] && a[1..][k] < b[1..][k]
    ensures a <= b || exists k :: 0 <= k < |a| && k < |b| && a[..k] == b[..k] && a[k] < b[k]
  {
    assert a == [a[0]] + a[1..] && b == [b[0]] + b[1..];
    if !(a[1..] <= b[1..]) {
      var k :| 0 <= k < |a[1..]| && k < |b[1..]| && a[1..][..k] == b[1..][..k] && a[1..][k] < b[1..][k];
      assert a[..k + 1] == [a[0]] + a[1..][..k] && b[..k + 1] == [b[0]] + b[1..][..k];
      assert a[k + 1] < b[k + 1];
    }
  }

  function SetOf(s: seq<string>): set<string> {
    set x | x in s
  }

  lemma SetOfSnoc(s: seq<string>, i: nat)
    requires i < |s|
    ensures SetOf(s[..i + 1]) == SetOf(s[..i]) + {s[i]}
  {
    assert s[..i + 1] == s[..i] + [s[i]];
  }

  lemma SetOfAppend(s: seq<string>, x: string)
    ensures SetOf(s + [x]) == SetOf(s) + {x}
  {
  }

  predicate Distinct(s: seq<string>) {
    forall i, j :: 0 <= i < j < |s| ==> s[i] != s[j]
  }

  /** `s` lists the set in order, each element once. */
  ghost predicate Lists(s: seq<string>, all: set<string>) {
    Sorting.Sorted(StringLe, s) && Distinct(s) && SetOf(s) == all
  }

  lemma {:induction false} MultisetOfDistinct(s: seq<string>)
    requires Distinct(s)
    ensures multiset(s) == multiset(SetOf(s))
  {
    if s != [] {
      var front, last := s[..|s| - 1], s[|s| - 1];
      assert s == front + [last];
      MultisetOfDistinct(front);
      assert SetOf(s) == SetOf(front) + {last};
    }
  }

  lemma {:induction false} DistinctFromMultiset(s: seq<string>, all: set<string>)
    requires multiset(s) == multiset(all)
    ensures Distinct(s) && SetOf(s) == all
  {
    forall x ensures x in s <==> x in all {
      assert x in s <==> x in multiset(s);
    }
    forall i, j | 0 <= i < j < |s| ensures s[i] != s[j] {
      assert s == s[..j] + s[j..];
      assert multiset(s) == multiset(s[..j]) + multiset(s[j..]);
      assert s[i] in s[..j] && s[j] in s[j..];
      assert multiset(s)[s[j]] <= 1;
    }
  }

  lemma DistinctIsStrict(s: seq<string>)
    requires Sorting.Sorted(StringLe, s) && Distinct(s)
    ensures Sorting.Strict(StringLe, s)
  {
    forall i, j | 0 <= i < j < |s| ensures !StringLe(s[j], s[i]) {
      if StringLe(s[j], s[i]) {
        StringLeAntisymmetric(s[i], s[j]);
      }
    }
  }

  /** A set of strings has one sorted listing. */
  lemma ListingIsUnique(s: seq<string>, t: seq<string>, all: set<string>)
    requires Lists(s, all) && Lists(t, all)
    ensures s == t
  {
    MultisetOfDistinct(s);
    MultisetOfDistinct(t);
    DistinctIsStrict(s);
    Sorting.StrictOrderIsUnique(StringLe, s, t);
  }

  ghost function Listing(all: set<string>): (s: seq<string>)
    ensures Lists(s, all)
  {
    if all == {} then []
    else
      var x :| x in all;
      var rest := Listing(all - {x});
      ListingStep(rest, all, x);
      Sorting.Insert(StringLe, rest, x)
  }

  lemma ListingStep(rest: seq<string>, all: set<string>, x: string)
    requires x in all && Lists(rest, all - {x})
    ensures Lists(Sorting.Insert(StringLe, rest, x), all)
  {
    StringLeIsAnOrder();
    Sorting.InsertSorts(StringLe, rest, x);
    MultisetOfDistinct(rest);
    assert all == (all - {x}) + {x};
    DistinctFromMultiset(Sorting.Insert(StringLe, rest, x), all);
  }

  // ----- name resolution -----

  /** What the i-th lookup of one resolution, of the given name, returns: addresses, or an error. */
  type Answers = (nat, string) -> Option<seq<string>>

  /** Every address returned by the lookups that succeeded. */
  function AddressSet(domains: seq<string>, answers: Answers): (all: set<string>)
    ensures forall a :: a in all <==>
      exists i :: 0 <= i < |domains| && answers(i, domains[i]).Some? && a in answers(i, domains[i]).value
  {
    if domains == [] then {}
    else
      var front, n := domains[..|domains| - 1], |domains| - 1;
      assert forall i :: 0 <= i < n ==> front[i] == domains[i];
      AddressSet(front, answers) + if answers(n, domains[n]).None? then {} else SetOf(answers(n, domains[n]).value)
  }

  /** No names at all, or at least one lookup succeeded. */
  predicate Resolves(domains: seq<string>, answers: Answers) {
    domains == [] || exists i :: 0 <= i < |domains| && answers(i, domains[i]).Some?
  }

  method ResolveAll(domains: seq<string>, answers: Answers) returns (r: Option<seq<string>>)
    ensures r.Some? <==> Resolves(domains, answers)
    ensures r.Some? ==> r.value == Listing(AddressSet(domains, answers))
  {
    var all: set<string> := {};
    var failures := 0;
    for i := 0 to |domains|
      invariant all == AddressSet(domains[..i], answers)
      invariant failures <= i
      invariant failures == i <==> forall k :: 0 <= k < i ==> answers(k, domains[k]).None?
    {
      var answer := answers(i, domains[i]);
      assert domains[..i + 1][..i] == domains[..i];
      if answer.None? {
        failures := failures + 1;
        continue;
      }
      for j := 0 to |answer.value|
        invariant all == AddressSet(domains[..i], answers) + SetOf(answer.value[..j])
      {
        SetOfSnoc(answer.value, j);
        all := all + {answer.value[j]};
      }
      assert answer.value[..|answer.value|] == answer.value;
    }
    assert domains[..|domains|] == domains;
    if failures == |domains| && |domains| > 0 {
      return None;
    }
    var out := ListInAnyOrder(all);
    var a := new string[|out|](i requires 0 <= i < |out| => out[i]);
    assert a[..] == out;
    StringLeIsAnOrder();
    Sorting.SortSlice(a, StringLe);
    MultisetOfDistinct(out);
    DistinctFromMultiset(a[..], all);
    ListingIsUnique(a[..], Listing(all), all);
    r := Some(a[..]);
  }

  /** Ranges over the set, in whatever order it yields its elements. */
  method ListInAnyOrder(all: set<string>) returns (out: seq<string>)
    ensures Distinct(out) && SetOf(out) == all
  {
    out := [];
    var rest := all;
    while rest != {}
      invariant rest <= all && SetOf(out) == all - rest && Distinct(out)
    {
      var ip :| ip in rest;
      assert ip !in SetOf(out);
      SetOfAppend(out, ip);
      assert all - (rest - {ip}) == (all - rest) + {ip};
      out := out + [ip];
      rest := rest - {ip};
    }
  }

  /** How often `v` occurs among the first `i` elements. */
  ghost function Count(s: seq<string>, i: nat, v: string): int
    requires i <= |s|
  {
    multiset(s[..i])[v]
  }

  lemma CountSnoc(s: seq<string>, i: nat)
    requires i < |s|
    ensures forall v :: Count(s, i + 1, v) == Count(s, i, v) + if v == s[i] then 1 else 0
  {
    assert s[..i + 1] == s[..i] + [s[i]];
  }

  lemma SameCounts(a: seq<string>, b: seq<string>)
    ensures (forall v :: Count(a, |a|, v) == Count(b, |b|, v)) <==> multiset(a) == multiset(b)
  {
    assert a[..|a|] == a && b[..|b|] == b;
    if forall v :: Count(a, |a|, v) == Count(b, |b|, v) {
      forall v ensures multiset(a)[v] == multiset(b)[v] {
        assert Count(a, |a|, v) == Count(b, |b|, v);
      }
    }
  }

  /** A missing count is zero. */
  function Tally(seen: map<string, int>, v: string): int {
    if v in seen then seen[v] else 0
  }

  /** One more or one less of `s[i]`. */
  lemma TallyStep(seen: map<string, int>, s: seq<string>, i: nat, change: int)
    requires i < |s|
    ensures forall v :: Tally(seen[s[i] := Tally(seen, s[i]) + change], v)
                     == Tally(seen, v) + change * (Count(s, i + 1, v) - Count(s, i, v))
  {
    CountSnoc(s, i);
    forall v
      ensures Tally(seen[s[i] := Tally(seen, s[i]) + change], v)
           == Tally(seen, v) + change * (Count(s, i + 1, v) - Count(s, i, v))
    {
      assert Count(s, i + 1, v) - Count(s, i, v) == if v == s[i] then 1 else 0;
    }
  }

  /** Whether the lists hold the same addresses, each as often. */
  method IpSetsEqual(a: seq<string>, b: seq<string>) returns (equal: bool)
    ensures equal <==> multiset(a) == multiset(b)
  {
    if |a| != |b| {
      assert |multiset(a)| != |multiset(b)|;
      return false;
    }
    if |a| == 0 {
      return true;
    }
    var seen: map<string, int> := map[];
    for i := 0 to |a|
      invariant forall v :: Tally(seen, v) == Count(a, i, v)
    {
      TallyStep(seen, a, i, 1);
      ghost var was := seen;
      seen := seen[a[i] := Tally(seen, a[i]) + 1];
      forall v
        ensures Tally(seen, v) == Count(a, i + 1, v)
      {
        assert Tally(was, v) == Count(a, i, v);
        assert Tally(seen, v) == Tally(was, v) + 1 * (Count(a, i + 1, v) - Count(a, i, v));
      }
    }
    for i := 0 to |b|
      invariant forall v :: Tally(seen, v) == Count(a, |a|, v) - Count(b, i, v)
    {
      TallyStep(seen, b, i, -1);
      seen := seen[b[i] := Tally(seen, b[i]) + -1];
    }
    var rest := seen.Keys;
    while rest != {}
      invariant rest <= seen.Keys
      invariant forall v :: v in seen.Keys - rest ==> seen[v] == 0
    {
      var v :| v in rest;
      if seen[v] != 0 {
        assert Tally(seen, v) != 0;
        assert Count(a, |a|, v) != Count(b, |b|, v);
        SameCounts(a, b);
        return false;
      }
      rest := rest - {v};
    }
    assert forall v :: Tally(seen, v) == 0;
    SameCounts(a, b);
    return true;
  }

  /** On sorted lists without repeats, the same counts mean the same list, and the same set. */
  lemma SameCountsMeansSameList(s: seq<string>, t: seq<string>)
    requires Lists(s, SetOf(s)) && Lists(t, SetOf(t))
    ensures multiset(s) == multiset(t) <==> s == t
    ensures SetOf(s) == SetOf(t) <==> s == t
  {
    MultisetOfDistinct(s);
    MultisetOfDistinct(t);
    if multiset(s) == multiset(t) {
      DistinctFromMultiset(t, SetOf(s));
    }
    if SetOf(s) == SetOf(t) {
      ListingIsUnique(s, t, SetOf(s));
    }
  }

  // ----- the state machine -----

  datatype Rules = Rules(ips: seq<string>, port: int)

  /** The state file, without its time stamp. */
  datatype Saved = Saved(active: bool, proxyAddr: string, transparentAddr: string, ips: seq<string>, caInstalled: bool)

  /** The controller's fields, then the rules in the OS, the calls made to install some, and the state file. */
  datatype System = System(domains: seq<string>, proxyAddr: string, port: int, ips: seq<string>, enabled: bool,
                           rules: Option<Rules>, redirects: nat, saved: Saved)

  datatype Event =
    | Enable(domains: seq<string>, proxyAddr: string, port: int, answers: Answers, ok: bool)
    | Disable(ok: bool)
    | Reconcile(answers: Answers, ok: bool)

  const Clean: System := System([], "", 0, [], false, None, 0, Saved(false, "", "", [], false))

  function Persisted(s: System): System {
    s.(saved := Saved(s.enabled, s.proxyAddr, "", s.ips, s.enabled))
  }

  /** A call to install the rules: they are replaced, or left alone when the call fails. */
  function Redirected(s: System, ips: seq<string>, port: int, ok: bool): System {
    s.(rules := if ok then Some(Rules(ips, port)) else s.rules, redirects := s.redirects + 1)
  }

  ghost function Step(s: System, e: Event): System {
    match e
    case Enable(domains, proxyAddr, port, answers, ok) =>
      if !Resolves(domains, answers) then s
      else
        var ips := Listing(AddressSet(domains, answers));
        var t := Redirected(s, ips, port, ok);
        if !ok then t
        else Persisted(t.(domains := domains, proxyAddr := proxyAddr, port := port, ips := ips, enabled := true))
    case Disable(ok) =>
      if !s.enabled || !ok then s
      else Persisted(s.(rules := None, enabled := false, ips := []))
    case Reconcile(answers, ok) =>
      if !s.enabled || !Resolves(s.domains, answers) then s
      else
        var ips := Listing(AddressSet(s.domains, answers));
        if multiset(ips) == multiset(s.ips) then s
        else
          var t := Redirected(s, ips, s.port, ok);
          if !ok then t else Persisted(t.(ips := ips))
  }

  ghost function Run(es: seq<Event>): System {
    if es == [] then Clean else Step(Run(es[..|es| - 1]), es[|es| - 1])
  }

  /** OS, memory and state file say the same, and the addresses are sorted without repeats. */
  ghost predicate Agreement(s: System) {
    && s.rules == (if s.enabled then Some(Rules(s.ips, s.port)) else None)
    && s.saved == Saved(s.enabled, s.proxyAddr, "", s.ips, s.enabled)
    && (!s.enabled ==> s.ips == [])
    && Lists(s.ips, SetOf(s.ips))
  }

  lemma StepKeepsAgreement(s: System, e: Event)
    requires Agreement(s)
    ensures Agreement(Step(s, e))
  {
  }

  lemma {:induction false} RunAgrees(es: seq<Event>)
    ensures Agreement(Run(es))
  {
    if es != [] {
      RunAgrees(es[..|es| - 1]);
      StepKeepsAgreement(Run(es[..|es| - 1]), es[|es| - 1]);
    }
  }

  // ----- what a run amounts to -----

  /** What should be routed: nothing, or the last addresses seen for the names last enabled. */
  datatype Routing = Off | On(domains: seq<string>, proxyAddr: string, port: int, addresses: set<string>)

  /** The same events without lists, comparison, memory or file: every reconciliation takes the new addresses. */
  function Rerouted(r: Routing, e: Event): Routing {
    match e
    case Enable(domains, proxyAddr, port, answers, ok) =>
      if ok && Resolves(domains, answers) then On(domains, proxyAddr, port, AddressSet(domains, answers)) else r
    case Disable(ok) => if ok then Off else r
    case Reconcile(answers, ok) =>
      if ok && r.On? && Resolves(r.domains, answers) then r.(addresses := AddressSet(r.domains, answers)) else r
  }

  function RoutingAfter(es: seq<Event>): Routing {
    if es == [] then Off else Rerouted(RoutingAfter(es[..|es| - 1]), es[|es| - 1])
  }

  function RoutingOf(s: System): Routing {
    if s.rules.None? then Off else On(s.domains, s.proxyAddr, s.rules.value.port, SetOf(s.rules.value.ips))
  }

  /** The proxy address of the last enabling that succeeded. */
  function LastProxy(es: seq<Event>): string {
    if es == [] then ""
    else
      var e := es[|es| - 1];
      if e.Enable? && e.ok && Resolves(e.domains, e.answers) then e.proxyAddr else LastProxy(es[..|es| - 1])
  }

  lemma StepReroutes(s: System, e: Event)
    requires Agreement(s)
    ensures RoutingOf(Step(s, e)) == Rerouted(RoutingOf(s), e)
  {
    if e.Reconcile? && s.enabled && Resolves(s.domains, e.answers) {
      SameCountsMeansSameList(Listing(AddressSet(s.domains, e.answers)), s.ips);
    }
  }

  /** The rules in the OS and the state file after any run are exactly those that the routing history calls for:
      skipping an unchanged reconciliation is never visible. */
  lemma {:induction false} RulesFollowTheHistory(es: seq<Event>)
    ensures RoutingOf(Run(es)) == RoutingAfter(es) && Run(es).proxyAddr == LastProxy(es)
    ensures Run(es).rules == match RoutingAfter(es)
                             case Off => None
                             case On(_, _, port, addresses) => Some(Rules(Listing(addresses), port))
    ensures Run(es).saved == match RoutingAfter(es)
                             case Off => Saved(false, LastProxy(es), "", [], false)
                             case On(_, proxyAddr, _, addresses) => Saved(true, proxyAddr, "", Listing(addresses), true)
  {
    if es != [] {
      RulesFollowTheHistory(es[..|es| - 1]);
      RunAgrees(es[..|es| - 1]);
      StepReroutes(Run(es[..|es| - 1]), es[|es| - 1]);
    }
    RunAgrees(es);
    var s := Run(es);
    if s.enabled {
      ListingIsUnique(s.ips, Listing(SetOf(s.ips)), SetOf(s.ips));
    }
  }

  /** A reconciliation calls for new rules exactly when the set of addresses changed. */
  lemma ReinstallsExactlyOnChange(s: System, answers: Answers, ok: bool)
    requires Agreement(s) && s.enabled && Resolves(s.domains, answers)
    ensures Step(s, Reconcile(answers, ok)).redirects ==
            s.redirects + if AddressSet(s.domains, answers) == SetOf(s.ips) then 0 else 1
  {
    SameCountsMeansSameList(Listing(AddressSet(s.domains, answers)), s.ips);
  }

  /** Answers that name the same addresses, in any order and split over the lookups in any way, leave a
      reconciled system alone. */
  lemma {:induction false} ReconcileSettles(s: System, answers: Answers, t: System, again: Answers, ok: bool)
    requires Agreement(s) && s.enabled && Resolves(s.domains, answers)
    requires t == Step(s, Reconcile(answers, true))
    requires AddressSet(s.domains, again) == AddressSet(s.domains, answers)
    ensures t.rules == Some(Rules(Listing(AddressSet(s.domains, answers)), s.port))
    ensures Step(t, Reconcile(again, ok)) == t
  {
    StepKeepsAgreement(s, Reconcile(answers, true));
    SameCountsMeansSameList(Listing(AddressSet(s.domains, answers)), s.ips);
  }

  // ----- the program -----

  /** The OS firewall. `ok` says whether the OS does what it is asked; if not, it changes nothing. */
  class Manager {
    var rules: Option<Rules>
    var redirects: nat

    constructor ()
      ensures rules == None && redirects == 0
    {
      rules, redirects := None, 0;
    }

    method Redirect(ips: seq<string>, port: int, ok: bool) returns (err: bool)
      modifies this
      ensures err == !ok && redirects == old(redirects) + 1
      ensures rules == if ok then Some(Rules(ips, port)) else old(rules)
    {
      redirects := redirects + 1;
      if ok {
        rules := Some(Rules(ips, port));
      }
      return !ok;
    }

    method Unredirect(ok: bool) returns (err: bool)
      modifies this
      ensures err == !ok && redirects == old(redirects)
      ensures rules == if ok then None else old(rules)
    {
      if ok {
        rules := None;
      }
      return !ok;
    }
  }

  class StateFile {
    var saved: Saved

    constructor ()
      ensures saved == Clean.saved
    {
      saved := Saved(false, "", "", [], false);
    }
  }

  class Controller {
    const mgr: Manager
    const file: StateFile
    var domains: seq<string>
    var proxyAddr: string
    var transparentPort: int
    var currentIPs: seq<string>
    var enabled: bool

    /** A clean start: no rules, no state file. */
    constructor (mgr: Manager, file: StateFile)
      requires mgr.rules == None && mgr.redirects == 0 && file.saved == Clean.saved
      ensures this.mgr == mgr && this.file == file && View() == Clean && Agreement(View())
    {
      this.mgr, this.file := mgr, file;
      domains, proxyAddr, transparentPort, currentIPs, enabled := [], "", 0, [], false;
    }

    function View(): System
      reads this, mgr, file
    {
      System(domains, proxyAddr, transparentPort, currentIPs, enabled, mgr.rules, mgr.redirects, file.saved)
    }

    /** Does not check whether it is enabled already: a second call replaces what the first one set up. */
    method Enable(domains: seq<string>, proxyAddr: string, port: int, answers: Answers, ok: bool) returns (err: bool)
      requires Agreement(View())
      modifies this, mgr, file
      ensures View() == Step(old(View()), Event.Enable(domains, proxyAddr, port, answers, ok))
      ensures Agreement(View())
      ensures err == !(Resolves(domains, answers) && ok)
    {
      var ips := ResolveAll(domains, answers);
      if ips.None? {
        return true;
      }
      err := mgr.Redirect(ips.value, port, ok);
      if err {
        return;
      }
      this.domains := domains;
      this.proxyAddr := proxyAddr;
      transparentPort := port;
      currentIPs := ips.value;
      enabled := true;
      Persist();
    }

    method Disable(ok: bool) returns (err: bool)
      requires Agreement(View())
      modifies this, mgr, file
      ensures View() == Step(old(View()), Event.Disable(ok))
      ensures Agreement(View())
      ensures err == (old(enabled) && !ok)
    {
      if !enabled {
        return false;
      }
      err := mgr.Unredirect(ok);
      if err {
        return;
      }
      enabled := false;
      currentIPs := [];
      Persist();
    }

    method Reconcile(answers: Answers, ok: bool) returns (err: bool)
      requires Agreement(View())
      modifies this, mgr, file
      ensures View() == Step(old(View()), Event.Reconcile(answers, ok))
      ensures Agreement(View())
      ensures err == (old(enabled) && (!Resolves(old(domains), answers) ||
                                       (!ok && AddressSet(old(domains), answers) != SetOf(old(currentIPs)))))
    {
      if !enabled {
        return false;
      }
      var ips := ResolveAll(domains, answers);
      if ips.None? {
        return true;
      }
      SameCountsMeansSameList(ips.value, currentIPs);
      var same := IpSetsEqual(ips.value, currentIPs);
      if same {
        return false;
      }
      err := mgr.Redirect(ips.value, transparentPort, ok);
      if err {
        return;
      }
      currentIPs := ips.value;
      Persist();
    }

    method Persist()
      modifies file
      ensures View() == Persisted(old(View()))
    {
      file.saved := Saved(enabled, proxyAddr, "", currentIPs, enabled);
    }
  }
}
