/** The coordinator: scan, filter by the allow-list, redact, and remember the answer. */
module Coordinator {
  import opened Sorting
  import opened Findings
  import opened Redactor
  import opened ScanPipeline
  import opened ScanLaws
  import opened Coherence
  import LruCache
  import opened ScanCache

  class Coordinator {
    const pipeline: Pipeline
    const cache: Cache<PipelineReport>
    const lower: string -> string  // strings.ToLower
    var allowedWords: set<string>

    ghost predicate Valid()
      reads this, pipeline, cache, cache.order
    {
      && cache.Valid() && CollisionFree(cache.hash)
      && AllHonest(pipeline.layers)
      && cache !in cache.Repr && this !in cache.Repr && pipeline !in cache.Repr
    }

    /** What is cached is right under the present configuration. */
    ghost predicate Current()
      reads this, pipeline, cache
    {
      Coherent(cache.Recency, cache.hash, pipeline.layers, allowedWords, lower)
    }

    ghost function View(): Config
      reads this, pipeline, cache
    {
      Config(cache.View(), pipeline.layers, allowedWords)
    }

    constructor (pipeline: Pipeline, cache: Cache<PipelineReport>, lower: string -> string)
      requires cache.Valid() && CollisionFree(cache.hash) && AllHonest(pipeline.layers)
      requires cache !in cache.Repr && pipeline !in cache.Repr
      ensures Valid() && this.pipeline == pipeline && this.cache == cache && this.lower == lower
      ensures allowedWords == {} && (cache.Recency == [] ==> Current())
    {
      this.pipeline, this.cache, this.lower := pipeline, cache, lower;
      allowedWords := {};
    }

    /** Moves the findings that are not allowed to the front of the report's array, and keeps these. */
    method FilterAllowed(report: PipelineReport)
      modifies report`findings, report.findings
      ensures report.findings[..] == Permitted(old(report.findings[..]), allowedWords, lower)
      ensures fresh(report.findings)
    {
      var all, kept := report.findings, 0;
      ghost var before := all[..];
      for i := 0 to all.Length
        invariant kept <= i && report.findings == all
        invariant all[i..] == before[i..]
        invariant all[..kept] == Permitted(before[..i], allowedWords, lower)
      {
        var f := all[i];
        assert f == all[i..][0] == before[i] && all[i..][1..] == all[i + 1..];
        assert before[..i + 1][..i] == before[..i];
        if lower(f.value) !in allowedWords {
          all[kept] := f;
          assert all[..kept + 1] == all[..kept] + [f];
          kept := kept + 1;
        }
      }
      assert before[..all.Length] == before;
      report.findings := new Finding[kept](i requires 0 <= i < kept <= all.Length reads all => all[i]);
      assert report.findings[..] == all[..kept];
    }

    ghost predicate NoTimeouts(late: nat -> bool)
      reads pipeline
    {
      forall i: nat :: i < |pipeline.layers| ==> !pipeline.Late(late)(i)
    }

    /** Answers from the pipeline. */
    method Compute(text: string, late: nat -> bool) returns (out: string, report: PipelineReport)
      requires AllHonest(pipeline.layers)
      ensures fresh(report)
      ensures MayAnswer(text, pipeline.layers, pipeline.Late(late), allowedWords, lower, out)
    {
      ghost var stages;
      report, stages := pipeline.Scan(text, late);
      ghost var all := stages[|pipeline.layers|].findings;
      PermittedIsPart(all, allowedWords, lower);
      if |allowedWords| > 0 {
        FilterAllowed(report);
      }
      ghost var chosen := report.findings[..];
      var result := Redact(text, report.findings);
      AnswerOfRun(text, pipeline.layers, pipeline.Late(late), allowedWords, lower, stages, chosen, report.findings[..]);
      out := result.value.text;
    }

    /** The redacted text, from the cache if it is there. */
    method ScanAndRedact(text: string, late: nat -> bool) returns (redacted: string, report: PipelineReport)
      requires Valid()
      modifies cache, cache.Repr
      ensures Valid() && fresh(cache.Repr - old(cache.Repr))
      ensures var e := Scan(text, pipeline.Late(late), redacted, report);
        Possible(old(View()), e, cache.hash, lower) && View() == Next(old(View()), e, cache.maxSize, cache.hash)
      ensures old(Current()) && (NoTimeouts(late) || LruCache.Holds(old(cache.Recency), cache.hash(text))) ==>
        Current() && Uncached(text, pipeline.layers, allowedWords, lower, redacted)
    {
      ghost var before := cache.View();
      var cachedText, cachedReport, hit := cache.Get(text);
      if hit {
        if old(Current()) {
          HitIsRight(before, cache.maxSize, cache.hash, text, pipeline.layers, allowedWords, lower);
        }
        return cachedText, cachedReport.value;
      }
      redacted, report := Compute(text, late);
      cache.Put(text, redacted, report);
      if old(Current()) && NoTimeouts(late) {
        InTimeIsUncached(text, pipeline.layers, pipeline.Late(late), allowedWords, lower, redacted);
        MissIsRight(before, cache.maxSize, cache.hash, text, redacted, report, pipeline.layers, allowedWords, lower);
      }
    }

    /** Replaces the allow-list. What is cached was computed with the old one, and stays right if both let the same
        values pass. */
    method SetAllowedWords(words: seq<string>)
      modifies this`allowedWords
      ensures allowedWords == set w | w in words :: lower(w)
      ensures old(Valid()) ==> Valid()
      ensures View() == Next(old(View()), NewWords(allowedWords), cache.maxSize, cache.hash)
      ensures cache.Recency == [] ==> Current()
      ensures old(Current()) && SameFilter(old(allowedWords), allowedWords, lower) ==> Current()
    {
      allowedWords := {};
      for i := 0 to |words|
        invariant allowedWords == set w | w in words[..i] :: lower(w)
      {
        assert words[..i + 1] == words[..i] + [words[i]];
        allowedWords := allowedWords + {lower(words[i])};
      }
      assert words[..|words|] == words;
      if old(Current()) && SameFilter(old(allowedWords), allowedWords, lower) {
        SameFilterStaysCoherent(cache.Recency, cache.hash, pipeline.layers, old(allowedWords), allowedWords, lower);
      }
    }

    /** Whatever was cached, even after a timeout or a new allow-list: what is left is right. */
    method InvalidateCache()
      requires Valid()
      modifies cache
      ensures Valid() && Current() && cache.Recency == []
      ensures View() == Next(old(View()), FlushAll, cache.maxSize, cache.hash)
    {
      cache.Invalidate();
    }

    method Reconfigure(enabled: Rules)
      requires Valid()
      modifies pipeline, cache
      ensures Valid() && Current() && cache.Recency == []
      ensures View() == Next(old(View()), NewRules(enabled), cache.maxSize, cache.hash)
      ensures pipeline.layers == Reconfigured(old(pipeline.layers), enabled)
    {
      pipeline.Reconfigure(enabled);
      cache.Invalidate();
      forall i | 0 <= i < |pipeline.layers|
        ensures Honest(pipeline.layers[i])
      {
        assert Honest(old(pipeline.layers)[i]);
      }
    }

    /** A change of the configuration file: new rules, then the new allow-list and the new timeout. */
    method Reload(enabled: Rules, words: seq<string>, timeoutMs: int)
      requires Valid()
      modifies this, pipeline, cache
      ensures Valid() && Current() && cache.Recency == []
      ensures View() == Next(old(View()), ReloadAll(enabled, allowedWords), cache.maxSize, cache.hash)
      ensures pipeline.layers == Reconfigured(old(pipeline.layers), enabled)
      ensures allowedWords == (set w | w in words :: lower(w)) && pipeline.timeoutMs == timeoutMs
    {
      Reconfigure(enabled);
      SetAllowedWords(words);
      pipeline.SetTimeout(timeoutMs);
    }
  }
}
