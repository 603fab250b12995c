/** The scan cache: a map and a list of entries, most recently used first. */
module LruCache {
  import opened Wrappers

  // ----- what the cache is: a recency sequence -----

  datatype Item<V> = Item(key: string, value: V)

  /** The entries, most recently used first, and the counters. */
  datatype State<V> = State(recency: seq<Item<V>>, hits: nat, misses: nat)

  /** A lookup, an insertion, or the removal of everything. */
  datatype Op<V> = Get(key: string) | Put(key: string, value: V) | Flush

  /** How many entries the cache holds: one, even if it is configured to hold none. */
  function Limit(maxSize: int): nat {
    if maxSize < 1 then 1 else maxSize
  }

  predicate Holds<V>(r: seq<Item<V>>, key: string) {
    exists i :: 0 <= i < |r| && r[i].key == key
  }

  function Lookup<V>(r: seq<Item<V>>, key: string): (v: V)
    requires Holds(r, key)
    ensures exists i :: 0 <= i < |r| && r[i] == Item(key, v)
  {
    if r[0].key == key then r[0].value
    else
      assert Holds(r[1..], key) by {
        var i :| 0 <= i < |r| && r[i].key == key;
        assert r[1..][i - 1] == r[i];
      }
      var v := Lookup(r[1..], key);
      assert exists i :: 0 <= i < |r| && r[i] == Item(key, v) by {
        var i :| 0 <= i < |r[1..]| && r[1..][i] == Item(key, v);
        assert r[i + 1] == Item(key, v);
      }
      v
  }

  function Without<V>(r: seq<Item<V>>, key: string): seq<Item<V>> {
    if r == [] then []
    else (if r[0].key == key then [] else [r[0]]) + Without(r[1..], key)
  }

  function Refresh<V>(r: seq<Item<V>>, key: string, value: V): seq<Item<V>> {
    [Item(key, value)] + Without(r, key)
  }

  function Apply<V>(st: State<V>, op: Op<V>, maxSize: int): State<V> {
    var r := st.recency;
    match op
    case Get(k) =>
      if Holds(r, k) then State(Refresh(r, k, Lookup(r, k)), st.hits + 1, st.misses)
      else st.(misses := st.misses + 1)
    case Put(k, v) =>
      if Holds(r, k) then st.(recency := Refresh(r, k, v))
      else st.(recency := [Item(k, v)] + if |r| >= maxSize && r != [] then r[..|r| - 1] else r)
    case Flush => st.(recency := [])
  }

  function RunOps<V>(ops: seq<Op<V>>, maxSize: int): State<V> {
    if ops == [] then State([], 0, 0)
    else Apply(RunOps(ops[..|ops| - 1], maxSize), ops[|ops| - 1], maxSize)
  }

  ghost predicate DistinctKeys<V>(r: seq<Item<V>>) {
    forall i, j :: 0 <= i < j < |r| ==> r[i].key != r[j].key
  }

  /** With distinct keys, taking a key out cuts out one place. */
  lemma {:induction false} WithoutCuts<V>(r: seq<Item<V>>, key: string, j: nat)
    requires DistinctKeys(r) && j < |r| && r[j].key == key
    ensures Without(r, key) == r[..j] + r[j + 1..]
  {
    if j == 0 {
      WithoutAbsent(r[1..], key);
    } else {
      assert r[1..][j - 1] == r[j];
      WithoutCuts(r[1..], key, j - 1);
      assert r[..j] + r[j + 1..] == [r[0]] + (r[1..][..j - 1] + r[1..][j..]);
    }
  }

  lemma {:induction false} WithoutAbsent<V>(r: seq<Item<V>>, key: string)
    requires forall i :: 0 <= i < |r| ==> r[i].key != key
    ensures Without(r, key) == r
  {
    if r != [] {
      WithoutAbsent(r[1..], key);
    }
  }

  lemma RefreshKeepsShape<V>(r: seq<Item<V>>, key: string, v: V)
    requires DistinctKeys(r) && Holds(r, key)
    ensures DistinctKeys(Refresh(r, key, v)) && |Refresh(r, key, v)| == |r|
  {
    var j :| 0 <= j < |r| && r[j].key == key;
    WithoutCuts(r, key, j);
  }

  /** The keys stay distinct and the size within its limit, whatever the operation. */
  lemma ApplyKeepsShape<V>(st: State<V>, op: Op<V>, maxSize: int)
    requires DistinctKeys(st.recency) && |st.recency| <= Limit(maxSize)
    ensures DistinctKeys(Apply(st, op, maxSize).recency)
    ensures |Apply(st, op, maxSize).recency| <= Limit(maxSize)
  {
    if !op.Flush? && Holds(st.recency, op.key) {
      RefreshKeepsShape(st.recency, op.key, if op.Get? then Lookup(st.recency, op.key) else op.value);
    }
  }

  lemma {:induction false} RunKeepsShape<V>(ops: seq<Op<V>>, maxSize: int)
    ensures DistinctKeys(RunOps(ops, maxSize).recency)
    ensures |RunOps(ops, maxSize).recency| <= if maxSize > 1 then maxSize else 1
  {
    if ops != [] {
      RunKeepsShape(ops[..|ops| - 1], maxSize);
      ApplyKeepsShape(RunOps(ops[..|ops| - 1], maxSize), ops[|ops| - 1], maxSize);
    }
  }

  function CountGets<V>(ops: seq<Op<V>>): nat {
    if ops == [] then 0 else CountGets(ops[..|ops| - 1]) + if ops[|ops| - 1].Get? then 1 else 0
  }

  /** Hits and misses together count every lookup ever made; emptying the cache does not reset them. */
  lemma {:induction false} CountersCountGets<V>(ops: seq<Op<V>>, maxSize: int)
    ensures RunOps(ops, maxSize).hits + RunOps(ops, maxSize).misses == CountGets(ops)
  {
    if ops != [] {
      CountersCountGets(ops[..|ops| - 1], maxSize);
    }
  }

  // ----- what is held, told from the history alone -----

  /** The distinct other keys touched since `key` was last touched. */
  function OthersSince(touched: seq<string>, key: string): set<string> {
    if touched == [] || touched[|touched| - 1] == key then {}
    else {touched[|touched| - 1]} + OthersSince(touched[..|touched| - 1], key)
  }

  predicate Recently(touched: seq<string>, key: string, n: nat) {
    key in touched && |OthersSince(touched, key)| < n
  }

  /** The keys touched since the cache was last emptied: those inserted, and those looked up while fewer
      than `n` other keys had been touched since their own last touch. */
  function Touched<V>(ops: seq<Op<V>>, n: nat): seq<string> {
    if ops == [] then []
    else
      var before := Touched(ops[..|ops| - 1], n);
      match ops[|ops| - 1]
      case Get(k) => if Recently(before, k, n) then before + [k] else before
      case Put(k, _) => before + [k]
      case Flush => []
  }

  function KeySet<V>(r: seq<Item<V>>): set<string> {
    if r == [] then {} else {r[0].key} + KeySet(r[1..])
  }

  lemma {:induction false} InKeySet<V>(r: seq<Item<V>>, k: string)
    ensures k in KeySet(r) <==> Holds(r, k)
  {
    if r != [] {
      InKeySet(r[1..], k);
      assert r[0].key == k ==> Holds(r, k);
      assert forall i :: 0 <= i < |r[1..]| ==> r[1..][i] == r[i + 1];
      if Holds(r, k) && r[0].key != k {
        var i :| 0 <= i < |r| && r[i].key == k;
        assert r[1..][i - 1].key == k;
      }
    }
  }

  lemma {:induction false} KeySetSize<V>(r: seq<Item<V>>)
    requires DistinctKeys(r)
    ensures |KeySet(r)| == |r|
  {
    if r != [] {
      KeySetSize(r[1..]);
      InKeySet(r[1..], r[0].key);
    }
  }

  ghost predicate ReflectsAt<V>(r: seq<Item<V>>, touched: seq<string>, i: nat)
    requires i < |r|
  {
    r[i].key in touched && OthersSince(touched, r[i].key) == KeySet(r[..i])
  }

  /** The recency sequence is the history, cut off after `n` keys. */
  ghost predicate Reflects<V>(r: seq<Item<V>>, touched: seq<string>, n: nat) {
    && DistinctKeys(r) && |r| <= n
    && (forall i :: 0 <= i < |r| ==> ReflectsAt(r, touched, i))
    && (forall k :: k in touched && !Holds(r, k) ==> |OthersSince(touched, k)| >= n)
  }

  lemma HeldIsRecent<V>(r: seq<Item<V>>, touched: seq<string>, n: nat, key: string)
    requires Reflects(r, touched, n)
    ensures Holds(r, key) <==> Recently(touched, key, n)
  {
    if Holds(r, key) {
      var i :| 0 <= i < |r| && r[i].key == key;
      assert ReflectsAt(r, touched, i);
      KeySetSize(r[..i]);
    }
  }

  lemma OthersAfterTouch(touched: seq<string>, x: string, k: string)
    ensures OthersSince(touched + [x], k) == if k == x then {} else {x} + OthersSince(touched, k)
  {
    assert (touched + [x])[..|touched|] == touched;
  }

  lemma KeySetOfFrontAndMore<V>(x: Item<V>, r: seq<Item<V>>)
    ensures KeySet([x] + r) == {x.key} + KeySet(r)
  {
    assert ([x] + r)[1..] == r;
  }

  lemma {:induction false} KeySetAround<V>(r: seq<Item<V>>, j: nat)
    requires j < |r|
    ensures KeySet(r) == {r[j].key} + KeySet(r[..j] + r[j + 1..])
  {
    if j == 0 {
      assert r[..0] + r[1..] == r[1..];
    } else {
      KeySetAround(r[1..], j - 1);
      assert r[..j] + r[j + 1..] == [r[0]] + (r[1..][..j - 1] + r[1..][j..]);
      KeySetOfFrontAndMore(r[0], r[1..][..j - 1] + r[1..][j..]);
    }
  }

  lemma TouchHeldBefore<V>(r: seq<Item<V>>, touched: seq<string>, j: nat, v: V, i: nat)
    requires 0 < i <= j < |r| && r[i - 1].key != r[j].key && ReflectsAt(r, touched, i - 1)
    ensures ReflectsAt([Item(r[j].key, v)] + (r[..j] + r[j + 1..]), touched + [r[j].key], i)
  {
    var x := r[j].key;
    var r' := [Item(x, v)] + (r[..j] + r[j + 1..]);
    assert r'[i] == r[i - 1];
    OthersAfterTouch(touched, x, r'[i].key);
    assert r'[..i] == [Item(x, v)] + r[..i - 1];
    KeySetOfFrontAndMore(Item(x, v), r[..i - 1]);
  }

  lemma TouchHeldBehind<V>(r: seq<Item<V>>, touched: seq<string>, j: nat, v: V, i: nat)
    requires j < i < |r| && r[i].key != r[j].key && ReflectsAt(r, touched, i)
    ensures ReflectsAt([Item(r[j].key, v)] + (r[..j] + r[j + 1..]), touched + [r[j].key], i)
  {
    var x := r[j].key;
    var r' := [Item(x, v)] + (r[..j] + r[j + 1..]);
    assert r'[i] == r[i];
    OthersAfterTouch(touched, x, r'[i].key);
    var upTo := r[..i];
    var between := upTo[..j] + upTo[j + 1..];
    assert r'[..i] == [Item(x, v)] + between;
    KeySetOfFrontAndMore(Item(x, v), between);
    KeySetAround(upTo, j);
  }

  /** The key at place `j` was just touched: how its new and the other places look. */
  lemma TouchHeldAt<V>(r: seq<Item<V>>, touched: seq<string>, n: nat, j: nat, v: V, i: nat)
    requires Reflects(r, touched, n) && j < |r| && i < |r|
    ensures var x := r[j].key;
      ReflectsAt([Item(x, v)] + (r[..j] + r[j + 1..]), touched + [x], i)
  {
    var x := r[j].key;
    if i == 0 {
      OthersAfterTouch(touched, x, x);
    } else if i <= j {
      assert ReflectsAt(r, touched, i - 1);
      TouchHeldBefore(r, touched, j, v, i);
    } else {
      assert ReflectsAt(r, touched, i);
      TouchHeldBehind(r, touched, j, v, i);
    }
  }

  lemma TouchHeld<V>(r: seq<Item<V>>, touched: seq<string>, n: nat, x: string, v: V)
    requires Reflects(r, touched, n) && Holds(r, x)
    ensures Reflects(Refresh(r, x, v), touched + [x], n)
  {
    var j :| 0 <= j < |r| && r[j].key == x;
    WithoutCuts(r, x, j);
    var r' := Refresh(r, x, v);
    forall i | 0 <= i < |r'|
      ensures ReflectsAt(r', touched + [x], i)
    {
      TouchHeldAt(r, touched, n, j, v, i);
    }
    forall k | k in touched + [x] && !Holds(r', k)
      ensures |OthersSince(touched + [x], k)| >= n
    {
      StillHeld(r, x, v, j, k);
      OthersGrow(touched, x, k);
    }
  }

  lemma StillHeld<V>(r: seq<Item<V>>, x: string, v: V, j: nat, k: string)
    requires j < |r| && r[j].key == x
    ensures k == x || Holds(r, k) ==> Holds([Item(x, v)] + (r[..j] + r[j + 1..]), k)
  {
    var r' := [Item(x, v)] + (r[..j] + r[j + 1..]);
    if k == x {
      assert r'[0].key == k;
    } else if Holds(r, k) {
      var i :| 0 <= i < |r| && r[i].key == k;
      assert r'[if i < j then i + 1 else i].key == k;
    }
  }

  lemma OthersGrow(touched: seq<string>, x: string, k: string)
    requires k != x
    ensures |OthersSince(touched + [x], k)| >= |OthersSince(touched, k)|
  {
    OthersAfterTouch(touched, x, k);
    var a, b := OthersSince(touched, k), {x} + OthersSince(touched, k);
    assert b == a + (b - a);
  }

  lemma TouchNewAt<V>(r: seq<Item<V>>, kept: seq<Item<V>>, touched: seq<string>, n: nat, x: string, v: V, i: nat)
    requires Reflects(r, touched, n) && !Holds(r, x) && kept <= r && i <= |kept|
    ensures ReflectsAt([Item(x, v)] + kept, touched + [x], i)
  {
    var r' := [Item(x, v)] + kept;
    OthersAfterTouch(touched, x, r'[i].key);
    if i > 0 {
      assert r'[i] == r[i - 1];
      assert ReflectsAt(r, touched, i - 1);
      assert r'[..i] == [Item(x, v)] + r[..i - 1];
      KeySetOfFrontAndMore(Item(x, v), r[..i - 1]);
    }
  }

  /** One more touch of another key adds that key to the `i` keys in front. */
  lemma OthersOfLast<V>(r: seq<Item<V>>, touched: seq<string>, i: nat, x: string)
    requires DistinctKeys(r) && i < |r| && ReflectsAt(r, touched, i) && !Holds(r, x)
    ensures |OthersSince(touched + [x], r[i].key)| == i + 1
  {
    OthersAfterTouch(touched, x, r[i].key);
    KeySetSize(r[..i]);
    InKeySet(r[..i], x);
  }

  /** A key that is pushed out, or was out already, has seen at least `n` others. */
  lemma TouchNewMissing<V>(r: seq<Item<V>>, touched: seq<string>, n: nat, x: string, v: V, k: string)
    requires Reflects(r, touched, n) && !Holds(r, x) && 1 <= n && k in touched && k != x
    requires |r| < n ==> !Holds(r, k)
    requires |r| == n ==> !Holds(r[..n - 1], k)
    ensures |OthersSince(touched + [x], k)| >= n
  {
    if Holds(r, k) {
      var i :| 0 <= i < |r| && r[i].key == k;
      assert i == |r| - 1 == n - 1;
      OthersOfLast(r, touched, i, x);
    } else {
      OthersGrow(touched, x, k);
    }
  }

  lemma NotHeldInFront<V>(x: Item<V>, kept: seq<Item<V>>, k: string)
    requires !Holds([x] + kept, k)
    ensures k != x.key && !Holds(kept, k)
  {
    var r' := [x] + kept;
    assert r'[0] == x;
    assert forall i :: 0 <= i < |kept| ==> r'[i + 1] == kept[i];
  }

  lemma TouchNew<V>(r: seq<Item<V>>, touched: seq<string>, n: nat, x: string, v: V)
    requires Reflects(r, touched, n) && !Holds(r, x) && 1 <= n
    ensures Reflects([Item(x, v)] + if |r| >= n then r[..|r| - 1] else r, touched + [x], n)
  {
    var kept := if |r| >= n then r[..|r| - 1] else r;
    var r' := [Item(x, v)] + kept;
    forall i | 0 <= i < |r'|
      ensures ReflectsAt(r', touched + [x], i)
    {
      TouchNewAt(r, kept, touched, n, x, v, i);
    }
    forall k | k in touched + [x] && !Holds(r', k)
      ensures |OthersSince(touched + [x], k)| >= n
    {
      NotHeldInFront(Item(x, v), kept, k);
      TouchNewMissing(r, touched, n, x, v, k);
    }
    assert DistinctKeys(r');
  }

  lemma {:induction false} RunReflectsHistory<V>(ops: seq<Op<V>>, maxSize: int)
    ensures Reflects(RunOps(ops, maxSize).recency, Touched(ops, Limit(maxSize)), Limit(maxSize))
  {
    if ops != [] {
      var front, op, n := ops[..|ops| - 1], ops[|ops| - 1], Limit(maxSize);
      RunReflectsHistory(front, maxSize);
      var r, touched := RunOps(front, maxSize).recency, Touched(front, n);
      if !op.Flush? {
        HeldIsRecent(r, touched, n, op.key);
        if Holds(r, op.key) {
          TouchHeld(r, touched, n, op.key, if op.Get? then Lookup(r, op.key) else op.value);
        } else if op.Put? {
          TouchNew(r, touched, n, op.key, op.value);
        }
      }
    }
  }

  // ----- what a hit returns -----

  /** What was last put under the key since the cache was last emptied. */
  function LastPut<V>(ops: seq<Op<V>>, key: string): Option<V> {
    if ops == [] || ops[|ops| - 1].Flush? then None
    else if ops[|ops| - 1].Put? && ops[|ops| - 1].key == key then Some(ops[|ops| - 1].value)
    else LastPut(ops[..|ops| - 1], key)
  }

  /** A touch is a put, or a hit on what was put before. */
  lemma {:induction false} TouchedIsPut<V>(ops: seq<Op<V>>, n: nat, key: string)
    ensures key in Touched(ops, n) <==> LastPut(ops, key).Some?
  {
    if ops != [] {
      TouchedIsPut(ops[..|ops| - 1], n, key);
    }
  }

  /** Told from the history: something was put under the key since the cache was last emptied, and fewer than `n`
      distinct other keys were touched since the key's own last touch. */
  ghost predicate IsRemembered<V>(ops: seq<Op<V>>, key: string, n: nat) {
    LastPut(ops, key).Some? && |OthersSince(Touched(ops, n), key)| < n
  }

  /** A lookup hits exactly when the key was put since the cache was last emptied, and fewer than
      max(1, maxSize) distinct other keys were touched since the key's own last touch. */
  lemma {:induction false} HitsToldFromHistory<V>(ops: seq<Op<V>>, maxSize: int, key: string)
    ensures Holds(RunOps(ops, maxSize).recency, key) <==> IsRemembered(ops, key, if maxSize > 1 then maxSize else 1)
  {
    var n := Limit(maxSize);
    RunReflectsHistory(ops, maxSize);
    HeldIsRecent(RunOps(ops, maxSize).recency, Touched(ops, n), n, key);
    TouchedIsPut(ops, n, key);
  }

  /** The lookups of a run whose key was remembered, or was not. */
  ghost function CountLookups<V>(ops: seq<Op<V>>, n: nat, remembered: bool): nat {
    if ops == [] then 0
    else
      var front, op := ops[..|ops| - 1], ops[|ops| - 1];
      CountLookups(front, n, remembered) + if op.Get? && IsRemembered(front, op.key, n) == remembered then 1 else 0
  }

  /** The hits are the lookups of remembered keys, the misses the others. */
  lemma {:induction false} CountersToldFromHistory<V>(ops: seq<Op<V>>, maxSize: int)
    ensures var n := if maxSize > 1 then maxSize else 1;
      && RunOps(ops, maxSize).hits == CountLookups(ops, n, true)
      && RunOps(ops, maxSize).misses == CountLookups(ops, n, false)
  {
    if ops != [] {
      var front, op := ops[..|ops| - 1], ops[|ops| - 1];
      CountersToldFromHistory(front, maxSize);
      if op.Get? {
        HitsToldFromHistory(front, maxSize, op.key);
      }
    }
  }

  /** What was just put, or just found, stands in front; a lookup changes no value. */
  lemma TouchedStandsInFront<V>(ops: seq<Op<V>>, op: Op<V>, maxSize: int)
    requires op.Put? || (op.Get? && Holds(RunOps(ops, maxSize).recency, op.key))
    ensures var r := RunOps(ops + [op], maxSize).recency;
      && r != [] && r[0].key == op.key
      && Some(r[0].value) == if op.Put? then Some(op.value) else LastPut(ops, op.key)
  {
    assert (ops + [op])[..|ops|] == ops;
    if op.Get? {
      HitReturnsLastPut(ops, maxSize, op.key);
    }
  }

  lemma {:induction false} WithoutIsPart<V>(r: seq<Item<V>>, key: string)
    ensures forall x :: x in Without(r, key) ==> x in r && x.key != key
  {
    if r != [] {
      WithoutIsPart(r[1..], key);
    }
  }

  lemma {:induction false} ItemsAreLastPut<V>(ops: seq<Op<V>>, maxSize: int)
    ensures forall x :: x in RunOps(ops, maxSize).recency ==> LastPut(ops, x.key) == Some(x.value)
  {
    if ops != [] {
      var front, op := ops[..|ops| - 1], ops[|ops| - 1];
      var st, st' := RunOps(front, maxSize), RunOps(ops, maxSize);
      ItemsAreLastPut(front, maxSize);
      if !op.Flush? {
        WithoutIsPart(st.recency, op.key);
        forall x | x in st'.recency
          ensures LastPut(ops, x.key) == Some(x.value)
        {
          if !Holds(st.recency, op.key) && x.key == op.key && op.Put? {
            assert x !in st.recency;
          }
        }
      }
    }
  }

  /** A hit returns what was last put under the key. */
  lemma HitReturnsLastPut<V>(ops: seq<Op<V>>, maxSize: int, key: string)
    requires Holds(RunOps(ops, maxSize).recency, key)
    ensures LastPut(ops, key) == Some(Lookup(RunOps(ops, maxSize).recency, key))
  {
    ItemsAreLastPut(ops, maxSize);
    var r := RunOps(ops, maxSize).recency;
    var i :| 0 <= i < |r| && r[i] == Item(key, Lookup(r, key));
    assert r[i] in r;
  }

  // ----- a larger cache never does worse -----

  ghost predicate Subsequence<V>(s: seq<Item<V>>, l: seq<Item<V>>) {
    s == [] || (l != [] && ((s[0] == l[0] && Subsequence(s[1..], l[1..])) || Subsequence(s, l[1..])))
  }

  lemma {:induction false} SubsequenceReflexive<V>(s: seq<Item<V>>)
    ensures Subsequence(s, s)
  {
    if s != [] {
      SubsequenceReflexive(s[1..]);
    }
  }

  lemma SubsequenceCons<V>(x: Item<V>, s: seq<Item<V>>, l: seq<Item<V>>)
    requires Subsequence(s, l)
    ensures Subsequence([x] + s, [x] + l)
  {
    assert ([x] + s)[1..] == s && ([x] + l)[1..] == l;
  }

  lemma {:induction false} SubsequenceHolds<V>(s: seq<Item<V>>, l: seq<Item<V>>)
    requires Subsequence(s, l)
    ensures |s| <= |l|
    ensures forall x :: x in s ==> x in l
  {
    if s == [] {
    } else if s[0] == l[0] && Subsequence(s[1..], l[1..]) {
      SubsequenceHolds(s[1..], l[1..]);
      assert s == [s[0]] + s[1..] && l == [l[0]] + l[1..];
    } else {
      SubsequenceHolds(s, l[1..]);
      assert l == [l[0]] + l[1..];
    }
  }

  lemma {:induction false} SubsequenceWithout<V>(s: seq<Item<V>>, l: seq<Item<V>>, key: string)
    requires Subsequence(s, l)
    ensures Subsequence(Without(s, key), Without(l, key))
  {
    if s == [] {
    } else if s[0] == l[0] && Subsequence(s[1..], l[1..]) {
      SubsequenceWithout(s[1..], l[1..], key);
      if s[0].key != key {
        SubsequenceCons(s[0], Without(s[1..], key), Without(l[1..], key));
      } else {
        assert Without(s, key) == Without(s[1..], key) && Without(l, key) == Without(l[1..], key);
      }
    } else {
      SubsequenceWithout(s, l[1..], key);
      if l[0].key != key {
        assert Without(l, key)[1..] == Without(l[1..], key);
      } else {
        assert Without(l, key) == Without(l[1..], key);
      }
    }
  }

  lemma {:induction false} SubsequenceDropLast<V>(s: seq<Item<V>>, l: seq<Item<V>>)
    requires Subsequence(s, l) && s != []
    ensures Subsequence(s[..|s| - 1], l[..|l| - 1])
  {
    var s', l' := s[..|s| - 1], l[..|l| - 1];
    if s' == [] {
    } else if s[0] == l[0] && Subsequence(s[1..], l[1..]) {
      SubsequenceDropLast(s[1..], l[1..]);
      assert s'[1..] == s[1..][..|s| - 2] && l'[1..] == l[1..][..|l| - 2];
    } else {
      SubsequenceHolds(s, l[1..]);
      SubsequenceDropLast(s, l[1..]);
      assert l'[1..] == l[1..][..|l| - 2];
    }
  }

  lemma {:induction false} SubsequenceOfFront<V>(s: seq<Item<V>>, l: seq<Item<V>>)
    requires Subsequence(s, l) && s != []
    ensures Subsequence(s[..|s| - 1], l)
  {
    var s' := s[..|s| - 1];
    if s' == [] {
    } else if s[0] == l[0] && Subsequence(s[1..], l[1..]) {
      SubsequenceOfFront(s[1..], l[1..]);
      assert s'[1..] == s[1..][..|s| - 2];
    } else {
      SubsequenceOfFront(s, l[1..]);
    }
  }

  /** The small recency sequence is part of the large one, and all of it while the small cache has room. */
  ghost predicate Included<V>(small: seq<Item<V>>, large: seq<Item<V>>, n: nat) {
    && DistinctKeys(small) && DistinctKeys(large) && |small| <= n
    && Subsequence(small, large)
    && (|small| < n ==> small == large)
  }

  lemma HeldInBoth<V>(small: seq<Item<V>>, large: seq<Item<V>>, n: nat, key: string)
    requires Included(small, large, n) && Holds(small, key)
    ensures Holds(large, key) && Lookup(large, key) == Lookup(small, key)
  {
    SubsequenceHolds(small, large);
    var i :| 0 <= i < |small| && small[i] == Item(key, Lookup(small, key));
    assert small[i] in large;
    var j :| 0 <= j < |large| && large[j] == small[i];
    var k :| 0 <= k < |large| && large[k] == Item(key, Lookup(large, key));
    assert j == k;
  }

  lemma IncludedRefresh<V>(small: seq<Item<V>>, large: seq<Item<V>>, n: nat, key: string, v: V)
    requires Included(small, large, n) && Holds(small, key) && Holds(large, key)
    ensures Included(Refresh(small, key, v), Refresh(large, key, v), n)
  {
    RefreshKeepsShape(small, key, v);
    RefreshKeepsShape(large, key, v);
    SubsequenceWithout(small, large, key);
    SubsequenceCons(Item(key, v), Without(small, key), Without(large, key));
  }

  /** The large cache moves an entry to the front that the small one does not hold. */
  lemma IncludedHitInLarge<V>(small: seq<Item<V>>, large: seq<Item<V>>, n: nat, key: string, v: V)
    requires Included(small, large, n) && !Holds(small, key) && Holds(large, key)
    ensures Included(small, Refresh(large, key, v), n)
  {
    RefreshKeepsShape(large, key, v);
    SubsequenceWithout(small, large, key);
    WithoutAbsent(small, key);
    assert Refresh(large, key, v)[1..] == Without(large, key);
  }

  lemma IncludedInsert<V>(small: seq<Item<V>>, large: seq<Item<V>>, n: nat, m: nat, key: string, v: V)
    requires 1 <= n <= m && |large| <= m && Included(small, large, n) && !Holds(small, key)
    ensures Included([Item(key, v)] + (if |small| >= n then small[..|small| - 1] else small),
                     if Holds(large, key) then Refresh(large, key, v)
                     else [Item(key, v)] + (if |large| >= m then large[..|large| - 1] else large), n)
  {
    var x := Item(key, v);
    SubsequenceHolds(small, large);
    if |small| < n {
      SubsequenceReflexive([x] + small);
    } else if Holds(large, key) {
      RefreshKeepsShape(large, key, v);
      SubsequenceWithout(small, large, key);
      WithoutAbsent(small, key);
      SubsequenceOfFront(small, Without(large, key));
      SubsequenceCons(x, small[..|small| - 1], Without(large, key));
    } else if |large| >= m {
      SubsequenceDropLast(small, large);
      SubsequenceCons(x, small[..|small| - 1], large[..|large| - 1]);
    } else {
      SubsequenceOfFront(small, large);
      SubsequenceCons(x, small[..|small| - 1], large);
    }
  }

  lemma GetKeepsIncluded<V>(small: State<V>, large: State<V>, n: int, m: int, key: string)
    requires Included(small.recency, large.recency, Limit(n))
    ensures Included(Apply(small, Get(key), n).recency, Apply(large, Get(key), m).recency, Limit(n))
  {
    if Holds(small.recency, key) {
      HeldInBoth(small.recency, large.recency, Limit(n), key);
      IncludedRefresh(small.recency, large.recency, Limit(n), key, Lookup(small.recency, key));
    } else if Holds(large.recency, key) {
      IncludedHitInLarge(small.recency, large.recency, Limit(n), key, Lookup(large.recency, key));
    }
  }

  lemma PutKeepsIncluded<V>(small: State<V>, large: State<V>, n: int, m: int, key: string, v: V)
    requires n <= m && Included(small.recency, large.recency, Limit(n)) && |large.recency| <= Limit(m)
    ensures Included(Apply(small, Put(key, v), n).recency, Apply(large, Put(key, v), m).recency, Limit(n))
  {
    if Holds(small.recency, key) {
      HeldInBoth(small.recency, large.recency, Limit(n), key);
      IncludedRefresh(small.recency, large.recency, Limit(n), key, v);
    } else {
      IncludedInsert(small.recency, large.recency, Limit(n), Limit(m), key, v);
    }
  }

  lemma {:induction false} RunsAreIncluded<V>(ops: seq<Op<V>>, maxSmall: int, maxLarge: int)
    requires maxSmall <= maxLarge
    ensures Included(RunOps(ops, maxSmall).recency, RunOps(ops, maxLarge).recency, Limit(maxSmall))
  {
    if ops != [] {
      var front, op := ops[..|ops| - 1], ops[|ops| - 1];
      RunsAreIncluded(front, maxSmall, maxLarge);
      match op
      case Flush =>
      case Get(k) => GetKeepsIncluded(RunOps(front, maxSmall), RunOps(front, maxLarge), maxSmall, maxLarge, k);
      case Put(k, v) =>
        RunKeepsShape(front, maxLarge);
        PutKeepsIncluded(RunOps(front, maxSmall), RunOps(front, maxLarge), maxSmall, maxLarge, k, v);
    }
  }

  /** On one and the same sequence of operations a larger cache holds whatever a smaller one holds, with the
      same value. */
  lemma {:induction false} LargerCacheHitsToo<V>(ops: seq<Op<V>>, maxSmall: int, maxLarge: int, key: string)
    requires maxSmall <= maxLarge && Holds(RunOps(ops, maxSmall).recency, key)
    ensures Subsequence(RunOps(ops, maxSmall).recency, RunOps(ops, maxLarge).recency)
    ensures Holds(RunOps(ops, maxLarge).recency, key)
    ensures Lookup(RunOps(ops, maxLarge).recency, key) == Lookup(RunOps(ops, maxSmall).recency, key)
  {
    RunsAreIncluded(ops, maxSmall, maxLarge);
    HeldInBoth(RunOps(ops, maxSmall).recency, RunOps(ops, maxLarge).recency, Limit(maxSmall), key);
  }
}
