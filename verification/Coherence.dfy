/** What the coordinator answers without its cache, and when a cache of such answers stays good. */
module Coherence {
  import opened Sorting
  import opened Findings
  import opened Redactor
  import opened RedactionLaws
  import opened ScanPipeline
  import opened ScanLaws
  import LruCache

  /** The findings whose value, in lower case, is not on the allow-list; an empty list filters nothing. */
  function Permitted(fs: seq<Finding>, allowed: set<string>, lower: string -> string): seq<Finding> {
    if fs == [] then []
    else Permitted(fs[..|fs| - 1], allowed, lower) + if lower(fs[|fs| - 1].value) in allowed then [] else [fs[|fs| - 1]]
  }

  lemma PartSnoc(part: seq<Finding>, whole: seq<Finding>, x: Finding)
    requires multiset(part) <= multiset(whole)
    ensures multiset(part) <= multiset(whole + [x]) && multiset(part + [x]) <= multiset(whole + [x])
  {
  }

  lemma {:induction false} PermittedIsPart(fs: seq<Finding>, allowed: set<string>, lower: string -> string)
    ensures multiset(Permitted(fs, allowed, lower)) <= multiset(fs)
    ensures allowed == {} ==> Permitted(fs, allowed, lower) == fs
  {
    if fs != [] {
      var front, last := fs[..|fs| - 1], fs[|fs| - 1];
      var kept := Permitted(front, allowed, lower);
      PermittedIsPart(front, allowed, lower);
      PartSnoc(kept, front, last);
      SplitLast(fs);
      assert kept + [] == kept;
    }
  }

  /** Each finding is judged by itself. */
  lemma {:induction false} PermittedOfConcat(fs: seq<Finding>, gs: seq<Finding>, allowed: set<string>, lower: string -> string)
    ensures Permitted(fs + gs, allowed, lower) == Permitted(fs, allowed, lower) + Permitted(gs, allowed, lower)
  {
    if gs == [] {
      assert fs + gs == fs && Permitted(fs, allowed, lower) + [] == Permitted(fs, allowed, lower);
    } else {
      var front := gs[..|gs| - 1];
      PermittedOfConcat(fs, front, allowed, lower);
      assert (fs + gs)[..|fs + gs| - 1] == fs + front;
    }
  }

  const NeverLate: nat -> bool := (i: nat) => false

  /** One way that pipeline, allow-list filter and redactor come to `out`: the stages of the scan, with the layers
      that come late left out, and the order the sort leaves the findings in. */
  ghost predicate Derives(text: string, layers: seq<Layer>, late: nat -> bool, allowed: set<string>, lower: string -> string,
                          stages: seq<Stage>, sorted: seq<Finding>, out: string) {
    && Run(text, layers, late, stages)
    && SortedPermutation(DedupLe, Permitted(stages[|layers|].findings, allowed, lower), sorted)
    && Redacted(text, sorted).Done? && Redacted(text, sorted).value.text == out
  }

  ghost predicate MayAnswer(text: string, layers: seq<Layer>, late: nat -> bool, allowed: set<string>, lower: string -> string,
                            out: string) {
    exists stages, sorted :: Derives(text, layers, late, allowed, lower, stages, sorted, out)
  }

  /** The uncached coordinator may answer `out` when no layer comes late. */
  ghost predicate Uncached(text: string, layers: seq<Layer>, allowed: set<string>, lower: string -> string, out: string) {
    MayAnswer(text, layers, NeverLate, allowed, lower, out)
  }

  ghost predicate CollisionFree(hash: string -> string) {
    forall t, u :: hash(t) == hash(u) ==> t == u
  }

  /** Whatever the cache holds for a text is an answer the uncached coordinator may give now. */
  ghost predicate Coherent(r: seq<LruCache.Item<(string, PipelineReport)>>, hash: string -> string,
                           layers: seq<Layer>, allowed: set<string>, lower: string -> string) {
    forall text, i :: 0 <= i < |r| && r[i].key == hash(text) ==> Uncached(text, layers, allowed, lower, r[i].value.0)
  }

  lemma RunDependsOnLateness(text: string, layers: seq<Layer>, late: nat -> bool, late': nat -> bool, stages: seq<Stage>)
    requires Run(text, layers, late, stages)
    requires forall i: nat :: i < |layers| ==> late(i) == late'(i)
    ensures Run(text, layers, late', stages)
  {
    forall i | 0 <= i < |stages| - 1
      ensures StepAt(text, layers, late', stages, i)
    {
      assert StepAt(text, layers, late, stages, i);
    }
  }

  lemma {:induction false} RefreshIsCoherent(r: seq<LruCache.Item<(string, PipelineReport)>>, key: string, v: (string, PipelineReport),
                          hash: string -> string, layers: seq<Layer>, allowed: set<string>, lower: string -> string)
    requires Coherent(r, hash, layers, allowed, lower)
    requires forall text :: hash(text) == key ==> Uncached(text, layers, allowed, lower, v.0)
    ensures Coherent(LruCache.Refresh(r, key, v), hash, layers, allowed, lower)
  {
    var r' := LruCache.Refresh(r, key, v);
    LruCache.WithoutIsPart(r, key);
    forall text, i | 0 <= i < |r'| && r'[i].key == hash(text)
      ensures Uncached(text, layers, allowed, lower, r'[i].value.0)
    {
      if i > 0 {
        assert r'[i] in LruCache.Without(r, key);
        var j :| 0 <= j < |r| && r[j] == r'[i];
      }
    }
  }

  /** A hit, and an insertion of a fresh answer, keep the cache coherent. */
  lemma ApplyIsCoherent(st: LruCache.State<(string, PipelineReport)>, op: LruCache.Op<(string, PipelineReport)>, maxSize: int,
                        hash: string -> string, layers: seq<Layer>, allowed: set<string>, lower: string -> string)
    requires Coherent(st.recency, hash, layers, allowed, lower)
    requires op.Put? ==> forall text :: hash(text) == op.key ==> Uncached(text, layers, allowed, lower, op.value.0)
    ensures Coherent(LruCache.Apply(st, op, maxSize).recency, hash, layers, allowed, lower)
  {
    var r, r' := st.recency, LruCache.Apply(st, op, maxSize).recency;
    if op.Flush? {
    } else if LruCache.Holds(r, op.key) {
      var v := if op.Get? then LruCache.Lookup(r, op.key) else op.value;
      if op.Get? {
        var i :| 0 <= i < |r| && r[i] == LruCache.Item(op.key, v);
      }
      RefreshIsCoherent(r, op.key, v, hash, layers, allowed, lower);
    } else if op.Put? {
      forall text, i | 0 <= i < |r'| && r'[i].key == hash(text)
        ensures Uncached(text, layers, allowed, lower, r'[i].value.0)
      {
        assert i > 0 ==> r'[i] == r[i - 1];
      }
    }
  }

  lemma InTimeIsUncached(text: string, layers: seq<Layer>, late: nat -> bool, allowed: set<string>, lower: string -> string, out: string)
    requires forall i: nat :: i < |layers| ==> !late(i)
    requires MayAnswer(text, layers, late, allowed, lower, out)
    ensures Uncached(text, layers, allowed, lower, out)
  {
    var stages: seq<Stage>, sorted: seq<Finding> :| Derives(text, layers, late, allowed, lower, stages, sorted, out);
    RunDependsOnLateness(text, layers, late, NeverLate, stages);
    assert Derives(text, layers, NeverLate, allowed, lower, stages, sorted, out);
  }

  /** A hit on a cache that is right gives a right answer, and leaves it right. */
  lemma HitIsRight(st: LruCache.State<(string, PipelineReport)>, maxSize: int, hash: string -> string, text: string,
                   layers: seq<Layer>, allowed: set<string>, lower: string -> string)
    requires Coherent(st.recency, hash, layers, allowed, lower) && LruCache.Holds(st.recency, hash(text))
    ensures Uncached(text, layers, allowed, lower, LruCache.Lookup(st.recency, hash(text)).0)
    ensures Coherent(LruCache.Apply(st, LruCache.Get(hash(text)), maxSize).recency, hash, layers, allowed, lower)
  {
    var r, key := st.recency, hash(text);
    ApplyIsCoherent(st, LruCache.Get(key), maxSize, hash, layers, allowed, lower);
    var i :| 0 <= i < |r| && r[i] == LruCache.Item(key, LruCache.Lookup(r, key));
  }

  /** A right answer may be cached. */
  lemma MissIsRight(st: LruCache.State<(string, PipelineReport)>, maxSize: int, hash: string -> string, text: string, out: string,
                    report: PipelineReport, layers: seq<Layer>, allowed: set<string>, lower: string -> string)
    requires Coherent(st.recency, hash, layers, allowed, lower) && CollisionFree(hash)
    requires Uncached(text, layers, allowed, lower, out)
    ensures var looked := LruCache.Apply(st, LruCache.Get(hash(text)), maxSize);
      Coherent(LruCache.Apply(looked, LruCache.Put(hash(text), (out, report)), maxSize).recency, hash, layers, allowed, lower)
  {
    var looked := LruCache.Apply(st, LruCache.Get(hash(text)), maxSize);
    ApplyIsCoherent(st, LruCache.Get(hash(text)), maxSize, hash, layers, allowed, lower);
    ApplyIsCoherent(looked, LruCache.Put(hash(text), (out, report)), maxSize, hash, layers, allowed, lower);
  }

  /** Any order of the permitted findings of a run leads to an answer; no slice of the text is out of range. */
  lemma AnswerOfRun(text: string, layers: seq<Layer>, late: nat -> bool, allowed: set<string>, lower: string -> string,
                    stages: seq<Stage>, chosen: seq<Finding>, sorted: seq<Finding>)
    requires AllHonest(layers) && Run(text, layers, late, stages)
    requires chosen == Permitted(stages[|layers|].findings, allowed, lower)
    requires SortedPermutation(DedupLe, chosen, sorted)
    ensures Redacted(text, sorted).Done?
    ensures MayAnswer(text, layers, late, allowed, lower, Redacted(text, sorted).value.text)
  {
    PermittedIsPart(stages[|layers|].findings, allowed, lower);
    ScanThenRedactStaysInRange(text, layers, late, stages, chosen, sorted);
    assert Derives(text, layers, late, allowed, lower, stages, sorted, Redacted(text, sorted).value.text);
  }

  // ----- one layer that finds something -----

  const AllRules: Rules := (id: string) => true

  /** Finds the value `v` in the text "k". */
  function Sees(v: string): (Rules, string) -> LayerOutcome {
    (rules: Rules, t: string) => if t == "k" then Found([Finding("A", v, 0, 1)]) else Found([])
  }

  /** Of these layers only layer `i` is ready. */
  function Lone(n: nat, i: nat, v: string): (layers: seq<Layer>)
    ensures |layers| == n && forall j :: 0 <= j < n ==> layers[j] == Layer("k", j == i, false, AllRules, Sees(v))
  {
    seq(n, j requires 0 <= j < n => Layer("k", j == i, false, AllRules, Sees(v)))
  }

  lemma LoneIsHonest(n: nat, i: nat, v: string)
    ensures AllHonest(Lone(n, i, v))
  {
  }

  /** What stands behind the first `j` layers. */
  function LoneStage(i: nat, v: string, late: nat -> bool, j: nat): Stage {
    if j <= i || late(i) then Stage([], []) else Stage([Finding("A", v, 0, 1)], [Finding("A", v, 0, 1)])
  }

  lemma OneSelects(f: Finding, applied: seq<Finding>)
    requires f.start == 0 && f.end == 1
    ensures Selects([f], 1, applied) <==> applied == [f]
  {
    assert [f][1..] == [];
    assert Usable([f], 1) == [f] + Usable([], 1) == [f];
    assert Swept([f], 0) == [f];
    assert SortedPermutation(StartLe, [f], [f]);
    forall sorted | SortedPermutation(StartLe, [f], sorted)
      ensures sorted == [f]
    {
      StrictOrderIsUnique(StartLe, [f], sorted);
    }
  }

  lemma LoneStep(n: nat, i: nat, v: string, late: nat -> bool, j: nat, st': Stage)
    requires i < n && j < n
    ensures Working("k", LoneStage(i, v, late, i)) == "k"
    ensures Sliceable(LoneStage(i, v, late, j).applied, 0, 1)
    ensures Step("k", Lone(n, i, v)[j], late(j), LoneStage(i, v, late, j), st') <==> st' == LoneStage(i, v, late, j + 1)
  {
    var f := Finding("A", v, 0, 1);
    assert [f][1..] == [];
    if j == i && !late(i) {
      assert Reported("k", Lone(n, i, v)[j], late(j), Stage([], [])) == [f];
      assert MapFindings([f], Entries([])) == [f];
      OneSelects(f, st'.applied);
      assert [] + [f] == [f];
    }
  }

  lemma {:induction false} LoneRunIs(n: nat, i: nat, v: string, late: nat -> bool, stages: seq<Stage>, j: nat)
    requires i < n && j <= n && Run("k", Lone(n, i, v), late, stages)
    ensures stages[j] == LoneStage(i, v, late, j)
  {
    if j > 0 {
      LoneRunIs(n, i, v, late, stages, j - 1);
      assert StepAt("k", Lone(n, i, v), late, stages, j - 1);
      LoneStep(n, i, v, late, j - 1, stages[j]);
    }
  }

  lemma LoneHasRun(n: nat, i: nat, v: string, late: nat -> bool) returns (stages: seq<Stage>)
    requires i < n
    ensures Run("k", Lone(n, i, v), late, stages) && stages[n] == LoneStage(i, v, late, n)
  {
    stages := seq(n + 1, j requires 0 <= j <= n => LoneStage(i, v, late, j));
    forall j | 0 <= j < n
      ensures StepAt("k", Lone(n, i, v), late, stages, j)
    {
      LoneStep(n, i, v, late, j, stages[j + 1]);
    }
  }

  lemma RedactedK(f: Finding)
    requires f.tag == "A" && f.start == 0 && f.end == 1
    ensures Sorted(DedupLe, [f]) && Redacted("k", [f]).Done? && Redacted("k", [f]).value.text == Placeholder("A")
  {
    assert [f][..0] == [] && [f][1..] == [] && "k"[..0] == "" && "k"[1..] == "";
    assert Dedup([f]) == [f];
    assert Swept([f], 0) == [f];
    assert Applied([f]) == [f];
    WeaveOfOne("k", f);
    assert "k"[..0] + Label(f) + "k"[1..] == Label(f);
  }

  lemma OnlyOrder(fs: seq<Finding>, sorted: seq<Finding>)
    requires |fs| <= 1 && SortedPermutation(DedupLe, fs, sorted)
    ensures sorted == fs
  {
    assert |multiset(sorted)| == |multiset(fs)| == |fs|;
    if |fs| == 1 {
      assert sorted[0] in multiset(fs);
    }
  }

  lemma PermittedOne(f: Finding, allowed: set<string>, lower: string -> string)
    ensures Permitted([f], allowed, lower) == if lower(f.value) in allowed then [] else [f]
  {
    assert [f][..0] == [];
  }

  /** There is just one answer: the placeholder, unless the layer comes late or the value is allowed. */
  lemma LoneAnswers(n: nat, i: nat, v: string, late: nat -> bool, allowed: set<string>, lower: string -> string, out: string)
    requires i < n
    ensures MayAnswer("k", Lone(n, i, v), late, allowed, lower, out) <==>
      out == if late(i) || lower(v) in allowed then "k" else Placeholder("A")
  {
    var f, found := Finding("A", v, 0, 1), LoneStage(i, v, late, n).findings;
    var chosen := Permitted(found, allowed, lower);
    PermittedOne(f, allowed, lower);
    RedactedK(f);
    assert Redacted("k", []).Done? && Redacted("k", []).value.text == "k";
    if stages: seq<Stage>, sorted: seq<Finding> :| Derives("k", Lone(n, i, v), late, allowed, lower, stages, sorted, out) {
      LoneRunIs(n, i, v, late, stages, n);
      OnlyOrder(chosen, sorted);
    }
    var stages := LoneHasRun(n, i, v, late);
    if Redacted("k", chosen).value.text == out {
      assert Derives("k", Lone(n, i, v), late, allowed, lower, stages, chosen, out);
    }
  }

  lemma PlaceholderIsNotK()
    ensures Placeholder("A") != "k"
  {
    assert |Placeholder("A")| > 1;
  }

  // ----- when another allow-list leaves the answers good -----

  /** Both lists let the same values pass. */
  ghost predicate SameFilter(a: set<string>, b: set<string>, lower: string -> string) {
    forall v: string :: lower(v) in a <==> lower(v) in b
  }

  lemma {:induction false} SamePermitted(fs: seq<Finding>, a: set<string>, b: set<string>, lower: string -> string)
    requires SameFilter(a, b, lower)
    ensures Permitted(fs, a, lower) == Permitted(fs, b, lower)
  {
    if fs != [] {
      SamePermitted(fs[..|fs| - 1], a, b, lower);
    }
  }

  lemma SameFilterSameAnswer(text: string, layers: seq<Layer>, a: set<string>, b: set<string>, lower: string -> string, out: string)
    requires SameFilter(a, b, lower) && Uncached(text, layers, a, lower, out)
    ensures Uncached(text, layers, b, lower, out)
  {
    var stages: seq<Stage>, sorted: seq<Finding> :| Derives(text, layers, NeverLate, a, lower, stages, sorted, out);
    SamePermitted(stages[|layers|].findings, a, b, lower);
    assert Derives(text, layers, NeverLate, b, lower, stages, sorted, out);
  }

  /** What was right under the allow-list `a` is right under `b`, for all texts and layers, exactly if both let the
      same values pass. */
  lemma AllowListExactly(a: set<string>, b: set<string>, lower: string -> string)
    ensures (forall text, layers, out :: AllHonest(layers) && Uncached(text, layers, a, lower, out) ==>
               Uncached(text, layers, b, lower, out))
       <==> SameFilter(a, b, lower)
  {
    if SameFilter(a, b, lower) {
      forall text, layers, out | AllHonest(layers) && Uncached(text, layers, a, lower, out)
        ensures Uncached(text, layers, b, lower, out)
      {
        SameFilterSameAnswer(text, layers, a, b, lower, out);
      }
    } else {
      var v: string :| !(lower(v) in a <==> lower(v) in b);
      var out := if lower(v) in a then "k" else Placeholder("A");
      LoneIsHonest(1, 0, v);
      LoneAnswers(1, 0, v, NeverLate, a, lower, out);
      LoneAnswers(1, 0, v, NeverLate, b, lower, out);
      PlaceholderIsNotK();
      assert AllHonest(Lone(1, 0, v)) && Uncached("k", Lone(1, 0, v), a, lower, out);
    }
  }

  lemma SameFilterStaysCoherent(r: seq<LruCache.Item<(string, PipelineReport)>>, hash: string -> string,
                                layers: seq<Layer>, a: set<string>, b: set<string>, lower: string -> string)
    requires Coherent(r, hash, layers, a, lower) && SameFilter(a, b, lower)
    ensures Coherent(r, hash, layers, b, lower)
  {
    forall text, i | 0 <= i < |r| && r[i].key == hash(text)
      ensures Uncached(text, layers, b, lower, r[i].value.0)
    {
      SameFilterSameAnswer(text, layers, a, b, lower, r[i].value.0);
    }
  }

  // ----- runs of the coordinator -----

  /** The cache, and the configuration that answers are to be right under. */
  datatype Config = Config(cache: LruCache.State<(string, PipelineReport)>, layers: seq<Layer>, allowed: set<string>)

  /** A scan with its answer; a flush; new rules; a new allow-list; a reload of the configuration file. */
  datatype Event =
    | Scan(text: string, late: nat -> bool, out: string, report: PipelineReport)
    | FlushAll
    | NewRules(enabled: Rules)
    | NewWords(words: set<string>)
    | ReloadAll(enabled: Rules, words: set<string>)

  function Emptied(c: Config): Config {
    c.(cache := c.cache.(recency := []))
  }

  function Next(c: Config, e: Event, maxSize: int, hash: string -> string): Config {
    match e
    case Scan(text, _, out, report) =>
      var looked := LruCache.Apply(c.cache, LruCache.Get(hash(text)), maxSize);
      if LruCache.Holds(c.cache.recency, hash(text)) then c.(cache := looked)
      else c.(cache := LruCache.Apply(looked, LruCache.Put(hash(text), (out, report)), maxSize))
    case FlushAll => Emptied(c)
    case NewRules(enabled) => Emptied(c).(layers := Reconfigured(c.layers, enabled))
    case NewWords(words) => c.(allowed := words)
    case ReloadAll(enabled, words) => Emptied(c).(layers := Reconfigured(c.layers, enabled), allowed := words)
  }

  /** The answer of a scan comes from the cache, or from pipeline, allow-list and redactor. */
  ghost predicate Possible(c: Config, e: Event, hash: string -> string, lower: string -> string) {
    e.Scan? ==>
      if LruCache.Holds(c.cache.recency, hash(e.text)) then (e.out, e.report) == LruCache.Lookup(c.cache.recency, hash(e.text))
      else MayAnswer(e.text, c.layers, e.late, c.allowed, lower, e.out)
  }

  ghost function After(c: Config, es: seq<Event>, maxSize: int, hash: string -> string): Config {
    if es == [] then c else Next(After(c, es[..|es| - 1], maxSize, hash), es[|es| - 1], maxSize, hash)
  }

  ghost predicate PossibleRun(c: Config, es: seq<Event>, maxSize: int, hash: string -> string, lower: string -> string) {
    es == [] ||
    (PossibleRun(c, es[..|es| - 1], maxSize, hash, lower) &&
     Possible(After(c, es[..|es| - 1], maxSize, hash), es[|es| - 1], hash, lower))
  }

  predicate Flushes(e: Event) {
    e.FlushAll? || e.NewRules? || e.ReloadAll?
  }

  /** A scan finds its answer in the cache, or no layer is late; a new allow-list lets the same values pass, or nothing is
      cached. */
  ghost predicate Harmless(c: Config, e: Event, hash: string -> string, lower: string -> string) {
    match e
    case Scan(text, late, _, _) =>
      LruCache.Holds(c.cache.recency, hash(text)) || forall i: nat :: i < |c.layers| ==> !late(i)
    case NewWords(words) => c.cache.recency == [] || SameFilter(c.allowed, words, lower)
    case _ => true
  }

  /** Since the cache was last emptied everything was harmless; what happened before does not matter. */
  ghost predicate HarmlessSinceFlush(c: Config, es: seq<Event>, maxSize: int, hash: string -> string, lower: string -> string) {
    es == [] || Flushes(es[|es| - 1]) ||
    (HarmlessSinceFlush(c, es[..|es| - 1], maxSize, hash, lower) &&
     Harmless(After(c, es[..|es| - 1], maxSize, hash), es[|es| - 1], hash, lower))
  }

  ghost predicate IsRight(c: Config, hash: string -> string, lower: string -> string) {
    Coherent(c.cache.recency, hash, c.layers, c.allowed, lower)
  }

  /** A harmless step keeps the cache right, and answers right. */
  lemma HarmlessStep(c: Config, e: Event, maxSize: int, hash: string -> string, lower: string -> string)
    requires CollisionFree(hash) && Possible(c, e, hash, lower)
    requires Flushes(e) || (IsRight(c, hash, lower) && Harmless(c, e, hash, lower))
    ensures IsRight(Next(c, e, maxSize, hash), hash, lower)
    ensures e.Scan? ==> Uncached(e.text, c.layers, c.allowed, lower, e.out)
  {
    match e
    case Scan(text, late, out, report) =>
      if LruCache.Holds(c.cache.recency, hash(text)) {
        HitIsRight(c.cache, maxSize, hash, text, c.layers, c.allowed, lower);
      } else {
        InTimeIsUncached(text, c.layers, late, c.allowed, lower, out);
        MissIsRight(c.cache, maxSize, hash, text, out, report, c.layers, c.allowed, lower);
      }
    case NewWords(words) =>
      if c.cache.recency != [] {
        SameFilterStaysCoherent(c.cache.recency, hash, c.layers, c.allowed, words, lower);
      }
    case _ =>
  }

  /** After every run that was harmless since the last flush, whatever happened before, the cache is right under the
      configuration it has then. */
  lemma {:induction false} RunStaysRight(c: Config, es: seq<Event>, maxSize: int, hash: string -> string, lower: string -> string)
    requires CollisionFree(hash) && c.cache.recency == [] && PossibleRun(c, es, maxSize, hash, lower)
    requires HarmlessSinceFlush(c, es, maxSize, hash, lower)
    ensures IsRight(After(c, es, maxSize, hash), hash, lower)
  {
    if es != [] {
      var front, last := es[..|es| - 1], es[|es| - 1];
      if !Flushes(last) {
        RunStaysRight(c, front, maxSize, hash, lower);
      }
      HarmlessStep(After(c, front, maxSize, hash), last, maxSize, hash, lower);
    }
  }

  /** So every scan in such a run is answered as the uncached coordinator may answer under the configuration then. */
  lemma {:induction false} RunAnswersRight(c: Config, es: seq<Event>, e: Event, maxSize: int, hash: string -> string, lower: string -> string)
    requires CollisionFree(hash) && c.cache.recency == [] && PossibleRun(c, es, maxSize, hash, lower)
    requires HarmlessSinceFlush(c, es, maxSize, hash, lower)
    requires e.Scan? && Possible(After(c, es, maxSize, hash), e, hash, lower)
    requires Harmless(After(c, es, maxSize, hash), e, hash, lower)
    ensures var now := After(c, es, maxSize, hash); Uncached(e.text, now.layers, now.allowed, lower, e.out)
  {
    RunStaysRight(c, es, maxSize, hash, lower);
    HarmlessStep(After(c, es, maxSize, hash), e, maxSize, hash, lower);
  }

  /** An answer is remembered: a scan of the same text right afterwards finds it in the cache. */
  lemma {:induction false} AnswerIsRemembered(c: Config, e: Event, e': Event, maxSize: int, hash: string -> string, lower: string -> string)
    requires e.Scan? && e'.Scan? && e'.text == e.text && Possible(c, e, hash, lower)
    requires Possible(Next(c, e, maxSize, hash), e', hash, lower)
    ensures e'.out == e.out && e'.report == e.report
    ensures Next(Next(c, e, maxSize, hash), e', maxSize, hash).cache.hits == Next(c, e, maxSize, hash).cache.hits + 1
  {
    var r := Next(c, e, maxSize, hash).cache.recency;
    assert r[0] == LruCache.Item(hash(e.text), (e.out, e.report));
    assert LruCache.Holds(r, hash(e.text)) && LruCache.Lookup(r, hash(e.text)) == (e.out, e.report);
  }

  const Identity: string -> string := (s: string) => s

  /** An answer given before its word was allowed is not one that would be given now: a new allow-list needs the
      flush that a reload does first. */
  lemma AllowListAloneGoesStale()
    ensures Uncached("k", Lone(1, 0, "k"), {}, Identity, Placeholder("A"))
    ensures !Uncached("k", Lone(1, 0, "k"), {"k"}, Identity, Placeholder("A"))
  {
    LoneAnswers(1, 0, "k", NeverLate, {}, Identity, Placeholder("A"));
    LoneAnswers(1, 0, "k", NeverLate, {"k"}, Identity, Placeholder("A"));
    PlaceholderIsNotK();
  }

  // ----- when a scan that was cut short leaves the answers good -----

  /** Unless every value is allowed: what `n` layers of which some come late lead to is an answer that they give in
      time, for all texts and layers, exactly if none comes late. */
  lemma LatenessExactly(n: nat, late: nat -> bool, allowed: set<string>, lower: string -> string, v: string)
    requires lower(v) !in allowed
    ensures (forall text, layers, out :: |layers| == n && AllHonest(layers) && MayAnswer(text, layers, late, allowed, lower, out) ==>
               Uncached(text, layers, allowed, lower, out))
       <==> forall i: nat :: i < n ==> !late(i)
  {
    if i: nat :| i < n && late(i) {
      LoneIsHonest(n, i, v);
      LoneAnswers(n, i, v, late, allowed, lower, "k");
      LoneAnswers(n, i, v, NeverLate, allowed, lower, "k");
      PlaceholderIsNotK();
      assert AllHonest(Lone(n, i, v)) && MayAnswer("k", Lone(n, i, v), late, allowed, lower, "k");
    } else {
      forall text, layers, out | |layers| == n && AllHonest(layers) && MayAnswer(text, layers, late, allowed, lower, out)
        ensures Uncached(text, layers, allowed, lower, out)
      {
        InTimeIsUncached(text, layers, late, allowed, lower, out);
      }
    }
  }

  /** A scan that a timeout cut short is cached, and its answer is then given to every later call. */
  lemma TimeoutIsCached(report: PipelineReport, hash: string -> string, maxSize: int)
    ensures var late := (i: nat) => true;
      var before := LruCache.State([], 0, 1);
      var after := LruCache.Apply(before, LruCache.Put(hash("k"), ("k", report)), maxSize);
      && MayAnswer("k", Lone(1, 0, "k"), late, {}, Identity, "k")
      && Coherent(before.recency, hash, Lone(1, 0, "k"), {}, Identity)
      && !Coherent(after.recency, hash, Lone(1, 0, "k"), {}, Identity)
  {
    LoneAnswers(1, 0, "k", (i: nat) => true, {}, Identity, "k");
    LoneAnswers(1, 0, "k", NeverLate, {}, Identity, "k");
    PlaceholderIsNotK();
    var after := LruCache.Apply(LruCache.State([], 0, 1), LruCache.Put(hash("k"), ("k", report)), maxSize);
    assert after.recency == [LruCache.Item(hash("k"), ("k", report))];
    assert after.recency[0].key == hash("k") && after.recency[0].value.0 == "k";
  }
}
