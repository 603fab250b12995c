/** The cache as it is kept: entries that are updated in place, a map to find them and a list to order them. */
module ScanCache {
  import opened Wrappers
  import opened LruCache

  class Entry<R> {
    const key: string
    var redactedText: string
    var report: R

    constructor (key: string, redactedText: string, report: R)
      ensures this.key == key && this.redactedText == redactedText && this.report == report
    {
      this.key, this.redactedText, this.report := key, redactedText, report;
    }
  }

  datatype Stats = Stats(hits: nat, misses: nat, size: nat, maxSize: int)

  ghost function ItemOf<R>(e: Entry<R>): Item<(string, R)>
    reads e
  {
    Item(e.key, (e.redactedText, e.report))
  }

  ghost function KeysOf<R>(order: seq<Entry<R>>): set<string> {
    if order == [] then {} else {order[0].key} + KeysOf(order[1..])
  }

  lemma {:induction false} InKeysOf<R>(order: seq<Entry<R>>, key: string)
    ensures key in KeysOf(order) <==> exists i :: 0 <= i < |order| && order[i].key == key
  {
    if order != [] {
      InKeysOf(order[1..], key);
      assert forall i :: 0 <= i < |order[1..]| ==> order[1..][i] == order[i + 1];
      if i :| 0 <= i < |order| && order[i].key == key {
        assert i > 0 ==> order[1..][i - 1].key == key;
      }
    }
  }

  /** The map and the list hold the same entries. */
  ghost predicate Consistent<R>(items: map<string, Entry<R>>, order: seq<Entry<R>>) {
    && (forall i, j :: 0 <= i < j < |order| ==> order[i].key != order[j].key)
    && (forall i :: 0 <= i < |order| ==> order[i].key in items && items[order[i].key] == order[i])
    && items.Keys == KeysOf(order)
  }

  /** `contents` are the items of the list. */
  ghost predicate Lists<R>(contents: seq<Item<(string, R)>>, order: seq<Entry<R>>)
    reads order
  {
    |contents| == |order| && forall i :: 0 <= i < |order| ==> contents[i] == ItemOf(order[i])
  }

  ghost predicate InList<R>(order: seq<Entry<R>>, e: Entry<R>) {
    exists i :: 0 <= i < |order| && order[i] == e
  }

  /** What the map finds is what the items hold. */
  lemma InItemsIsHeld<R>(items: map<string, Entry<R>>, order: seq<Entry<R>>, contents: seq<Item<(string, R)>>, key: string)
    requires Consistent(items, order) && Lists(contents, order)
    ensures key in items <==> Holds(contents, key)
    ensures key in items ==> InList(order, items[key]) && items[key].key == key
    ensures key in items ==> Lookup(contents, key) == (items[key].redactedText, items[key].report)
  {
    if key in items {
      InKeysOf(order, key);
      var i :| 0 <= i < |order| && order[i].key == key;
      assert contents[i].key == key;
      var j :| 0 <= j < |contents| && contents[j] == Item(key, Lookup(contents, key));
      assert order[j].key == key;
    }
  }

  function Moved<T>(s: seq<T>, i: nat): (r: seq<T>)
    requires i < |s|
    ensures |r| == |s| && forall k :: 0 <= k < |s| ==> r[k] == s[Source(i, k)]
  {
    [s[i]] + (s[..i] + s[i + 1..])
  }

  /** From where place `k` is filled when place `i` moves to the front. */
  function Source(i: nat, k: nat): nat {
    if k == 0 then i else if k <= i then k - 1 else k
  }

  lemma {:induction false} KeysOfAround<R>(order: seq<Entry<R>>, i: nat)
    requires i < |order|
    ensures KeysOf(order) == {order[i].key} + KeysOf(order[..i] + order[i + 1..])
  {
    if i == 0 {
      assert order[..0] + order[1..] == order[1..];
    } else {
      KeysOfAround(order[1..], i - 1);
      var rest := order[1..][..i - 1] + order[1..][i..];
      assert order[..i] + order[i + 1..] == [order[0]] + rest;
      assert ([order[0]] + rest)[1..] == rest;
    }
  }

  lemma ConsistentMove<R>(items: map<string, Entry<R>>, order: seq<Entry<R>>, i: nat)
    requires Consistent(items, order) && i < |order|
    ensures Consistent(items, Moved(order, i))
  {
    KeysOfAround(order, i);
    assert Moved(order, i)[1..] == order[..i] + order[i + 1..];
  }

  lemma ListsMoved<R>(contents: seq<Item<(string, R)>>, order: seq<Entry<R>>, i: nat)
    requires Lists(contents, order) && i < |order|
    ensures Lists(Moved(contents, i), Moved(order, i))
  {
  }

  lemma MovedIsRefreshed<R>(contents: seq<Item<(string, R)>>, i: nat)
    requires DistinctKeys(contents) && i < |contents|
    ensures Moved(contents, i) == Refresh(contents, contents[i].key, contents[i].value)
  {
    WithoutCuts(contents, contents[i].key, i);
  }

  lemma MoveKeepsLists<R>(items: map<string, Entry<R>>, order: seq<Entry<R>>, contents: seq<Item<(string, R)>>, i: nat)
    requires Consistent(items, order) && Lists(contents, order) && i < |order|
    ensures Consistent(items, Moved(order, i)) && Lists(Moved(contents, i), Moved(order, i))
    ensures Moved(contents, i) == Refresh(contents, order[i].key, (order[i].redactedText, order[i].report))
  {
    ConsistentMove(items, order, i);
    ListsMoved(contents, order, i);
    MovedIsRefreshed(contents, i);
  }

  lemma ConsistentDrop<R>(items: map<string, Entry<R>>, order: seq<Entry<R>>)
    requires Consistent(items, order) && order != []
    ensures Consistent(items - {order[|order| - 1].key}, order[..|order| - 1])
  {
    var front, last := order[..|order| - 1], order[|order| - 1];
    KeysOfAround(order, |order| - 1);
    assert front + order[|order|..] == front;
    InKeysOf(front, last.key);
  }

  lemma ConsistentPush<R>(items: map<string, Entry<R>>, order: seq<Entry<R>>, e: Entry<R>)
    requires Consistent(items, order) && e.key !in items
    ensures Consistent(items[e.key := e], [e] + order)
  {
    assert ([e] + order)[1..] == order;
  }

  class Cache<R> {
    const maxSize: int
    const hash: string -> string
    var items: map<string, Entry<R>>
    var order: seq<Entry<R>>  // front first
    var hits: nat
    var misses: nat
    ghost var Recency: seq<Item<(string, R)>>  // the items of the list
    ghost var Repr: set<object>  // all entries ever made

    ghost predicate Valid()
      reads this`items, this`order, this`Recency, this`Repr, order
    {
      && Consistent(items, order) && Lists(Recency, order) && |order| <= Limit(maxSize)
      && forall i :: 0 <= i < |order| ==> order[i] in Repr
    }

    ghost function View(): State<(string, R)>
      reads this
    {
      State(Recency, hits, misses)
    }

    constructor (maxSize: int, hash: string -> string)
      ensures Valid() && this.maxSize == maxSize && this.hash == hash
      ensures View() == State([], 0, 0) && Repr == {}
    {
      this.maxSize, this.hash := maxSize, hash;
      items, order := map[], [];
      hits, misses := 0, 0;
      Recency, Repr := [], {};
    }

    method MoveToFront(e: Entry<R>)
      requires Valid() && InList(order, e)
      modifies this`order, this`Recency
      ensures Valid() && |order| == |old(order)| && order[0] == e
      ensures Recency == Refresh(old(Recency), e.key, (e.redactedText, e.report))
    {
      var i := Position(e);
      MoveKeepsLists(items, order, Recency, i);
      order, Recency := Moved(order, i), Moved(Recency, i);
    }

    /** The place of an entry that is in the list. */
    method Position(e: Entry<R>) returns (i: nat)
      requires InList(order, e)
      ensures i < |order| && order[i] == e
    {
      i := 0;
      while order[i] != e
        invariant i < |order|
        invariant forall j :: 0 <= j < i ==> order[j] != e
        decreases |order| - i
      {
        i := i + 1;
      }
    }

    method Get(text: string) returns (redactedText: string, report: Option<R>, hit: bool)
      requires Valid()
      modifies this`order, this`Recency, this`hits, this`misses
      ensures Valid() && View() == Apply(old(View()), LruCache.Get(hash(text)), maxSize)
      ensures hit <==> Holds(old(Recency), hash(text))
      ensures hits == old(hits) + (if hit then 1 else 0) && misses == old(misses) + (if hit then 0 else 1)
      ensures hit ==> order != [] && order[0].key == hash(text)
      ensures if hit then report.Some? && (redactedText, report.value) == Lookup(old(Recency), hash(text))
              else redactedText == "" && report.None?
    {
      var key := hash(text);
      InItemsIsHeld(items, order, Recency, key);
      if key in items {
        var elem := items[key];
        MoveToFront(elem);
        hits := hits + 1;
        return elem.redactedText, Some(elem.report), true;
      }
      misses := misses + 1;
      return "", None, false;
    }

    method Put(text: string, redactedText: string, report: R)
      requires Valid()
      modifies this`items, this`order, this`Recency, this`Repr, Repr
      ensures Valid() && View() == Apply(old(View()), LruCache.Put(hash(text), (redactedText, report)), maxSize)
      ensures fresh(Repr - old(Repr))
    {
      var key := hash(text);
      InItemsIsHeld(items, order, Recency, key);
      if key in items {
        Update(items[key], redactedText, report);
        return;
      }
      if |order| >= maxSize && |order| > 0 {
        DropOldest();
      }
      PushFront(key, redactedText, report);
    }

    method PushFront(key: string, redactedText: string, report: R)
      requires Valid() && key !in items && |order| < Limit(maxSize)
      modifies this`items, this`order, this`Recency, this`Repr
      ensures Valid() && Recency == [Item(key, (redactedText, report))] + old(Recency)
      ensures fresh(Repr - old(Repr))
    {
      var entry := new Entry(key, redactedText, report);
      ConsistentPush(items, order, entry);
      order := [entry] + order;
      items := items[key := entry];
      Recency := [Item(key, (redactedText, report))] + Recency;
      Repr := Repr + {entry};
    }

    method DropOldest()
      requires Valid() && order != []
      modifies this`items, this`order, this`Recency
      ensures Valid() && |order| == |old(order)| - 1 && Recency == old(Recency)[..|old(Recency)| - 1]
      ensures items.Keys <= old(items.Keys)
    {
      var oldest := order[|order| - 1];
      ConsistentDrop(items, order);
      order := order[..|order| - 1];
      items := items - {oldest.key};
      Recency := Recency[..|Recency| - 1];
    }

    /** Moves an entry to the front and overwrites it in place. */
    method Update(elem: Entry<R>, redactedText: string, report: R)
      requires Valid() && InList(order, elem)
      modifies this`order, this`Recency, elem
      ensures Valid() && Recency == Refresh(old(Recency), elem.key, (redactedText, report))
    {
      MoveToFront(elem);
      elem.redactedText := redactedText;
      elem.report := report;
      Recency := [ItemOf(elem)] + Recency[1..];
    }

    method Invalidate()
      requires Valid()
      modifies this`items, this`order, this`Recency
      ensures Valid() && View() == Apply(old(View()), Flush, maxSize)
    {
      items := map[];
      order := [];
      Recency := [];
    }

    method GetStats() returns (s: Stats)
      requires Valid()
      ensures s == Stats(View().hits, View().misses, |View().recency|, maxSize)
    {
      s := Stats(hits, misses, |order|, maxSize);
    }
  }
}
