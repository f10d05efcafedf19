/**
 * The frequency counter of index.js:10-21: a JavaScript `Map` from string to
 * count whose `count(key)` adds one to `key` and ignores a zero-length key.
 * A `Map` iterates its keys in insertion order, so its contents are a
 * `Table`: the keys in the order they were first counted, and their counts.
 */
module Counting {
  import opened Wrappers

  datatype Table = Table(order: seq<string>, counts: map<string, nat>)

  type Entry = (string, nat)

  ghost predicate Distinct(s: seq<string>) {
    forall i, j :: 0 <= i < j < |s| ==> s[i] != s[j]
  }

  /** What every reachable counter satisfies: each key listed once, the listed
      keys are the counted ones, every count is at least 1 and the empty
      string is never a key. */
  ghost predicate WellFormed(t: Table) {
    && Distinct(t.order)
    && (forall k :: k in t.counts <==> k in t.order)
    && (forall k :: k in t.counts ==> t.counts[k] >= 1)
    && "" !in t.counts
  }

  function Empty(): (t: Table)
    ensures WellFormed(t)
  {
    Table([], map[])
  }

  /** `get(key)`: the stored count, or `undefined` for a key never counted. */
  function Lookup(t: Table, key: string): Option<nat> {
    if key in t.counts then Some(t.counts[key]) else None
  }

  /** The count of `key`, reading an absent key as 0 (`get(key) || 0`). */
  function CountOf(t: Table, key: string): nat {
    if key in t.counts then t.counts[key] else 0
  }

  /** `count(key)`: a zero-length key is ignored; otherwise the key's count goes
      up by one, a new key starting at 1 and going to the end of the order. */
  function Tally(t: Table, key: string): (r: Table)
    ensures |key| == 0 ==> r == t
    ensures |key| > 0 ==> Lookup(r, key) == Some(CountOf(t, key) + 1)
    ensures forall k :: k != key ==> Lookup(r, k) == Lookup(t, k)
    ensures t.counts.Keys <= r.counts.Keys
    ensures |t.order| <= |r.order| <= |t.order| + 1 && r.order[..|t.order|] == t.order
    ensures WellFormed(t) ==> WellFormed(r)
  {
    if |key| == 0 then t
    else if key in t.counts then Table(t.order, t.counts[key := t.counts[key] + 1])
    else Table(t.order + [key], t.counts[key := 1])
  }

  /** The table after counting each of `keys` in turn. */
  function TallyAll(t: Table, keys: seq<string>): (r: Table)
    ensures |t.order| <= |r.order| <= |t.order| + |keys|
    decreases |keys|
  {
    if keys == [] then t else Tally(TallyAll(t, keys[..|keys| - 1]), keys[|keys| - 1])
  }

  lemma TallyAllSnoc(t: Table, keys: seq<string>, key: string)
    ensures TallyAll(t, keys + [key]) == Tally(TallyAll(t, keys), key)
  {
    assert (keys + [key])[..|keys|] == keys;
  }

  /** Counting `a` and then `b` is counting `a + b`. */
  lemma {:induction false} TallyAllAppend(t: Table, a: seq<string>, b: seq<string>)
    ensures TallyAll(t, a + b) == TallyAll(TallyAll(t, a), b)
    decreases |b|
  {
    if b == [] {
      assert a + b == a;
    } else {
      var b' := b[..|b| - 1];
      assert a + b == (a + b') + [b[|b| - 1]];
      TallyAllSnoc(t, a + b', b[|b| - 1]);
      TallyAllAppend(t, a, b');
      TallyAllSnoc(TallyAll(t, a), b', b[|b| - 1]);
      assert b == b' + [b[|b| - 1]];
    }
  }

  /** Every non-empty key ends up counted once per occurrence; the empty key is
      never stored. */
  lemma {:induction false} TallyAllCounts(t: Table, keys: seq<string>, key: string)
    ensures |key| > 0 ==> CountOf(TallyAll(t, keys), key) == CountOf(t, key) + multiset(keys)[key]
    ensures |key| == 0 ==> Lookup(TallyAll(t, keys), key) == Lookup(t, key)
    decreases |keys|
  {
    if keys != [] {
      var init := keys[..|keys| - 1];
      assert keys == init + [keys[|keys| - 1]];
      TallyAllCounts(t, init, key);
    }
  }

  /** A key is stored afterwards iff it was stored before or is a non-empty
      member of `keys`; keys are never removed and keep their position. */
  lemma {:induction false} TallyAllKeys(t: Table, keys: seq<string>)
    ensures forall k :: k in TallyAll(t, keys).counts <==> k in t.counts || (k in keys && k != "")
    ensures |TallyAll(t, keys).order| >= |t.order| && TallyAll(t, keys).order[..|t.order|] == t.order
    decreases |keys|
  {
    if keys != [] {
      var init := keys[..|keys| - 1];
      assert keys == init + [keys[|keys| - 1]];
      TallyAllKeys(t, init);
      var mid := TallyAll(t, init);
      assert mid.order[..|t.order|] == t.order;
      assert TallyAll(t, keys).order[..|mid.order|] == mid.order;
    }
  }

  lemma {:induction false} TallyAllWellFormed(t: Table, keys: seq<string>)
    requires WellFormed(t)
    ensures WellFormed(TallyAll(t, keys))
    decreases |keys|
  {
    if keys != [] {
      TallyAllWellFormed(t, keys[..|keys| - 1]);
    }
  }

  function Repeat(key: string, n: nat): (r: seq<string>)
    ensures |r| == n && forall i :: 0 <= i < n ==> r[i] == key
  {
    seq(n, i => key)
  }

  /** Counting a non-empty, absent key `n` times stores exactly `n`. */
  lemma {:induction false} CountRepeated(t: Table, key: string, n: nat)
    requires |key| > 0 && key !in t.counts
    ensures Lookup(TallyAll(t, Repeat(key, n)), key) == if n == 0 then None else Some(n)
  {
    if n > 0 {
      assert Repeat(key, n)[..n - 1] == Repeat(key, n - 1);
      CountRepeated(t, key, n - 1);
    }
  }

  // ---------------------------------------------------------------------
  // The sum of all counts

  function SumOver(keys: seq<string>, counts: map<string, nat>): nat {
    if keys == [] then 0
    else (if keys[0] in counts then counts[keys[0]] else 0) + SumOver(keys[1..], counts)
  }

  /** The sum of all the counts in the table. */
  function Total(t: Table): nat {
    SumOver(t.order, t.counts)
  }

  lemma {:induction false} SumOverSnoc(keys: seq<string>, counts: map<string, nat>, key: string)
    ensures SumOver(keys + [key], counts) == SumOver(keys, counts) + (if key in counts then counts[key] else 0)
    decreases |keys|
  {
    if keys != [] {
      assert (keys + [key])[1..] == keys[1..] + [key];
      SumOverSnoc(keys[1..], counts, key);
    }
  }

  /** Changing the count of a key that is not listed leaves the sum alone. */
  lemma {:induction false} SumOverOther(keys: seq<string>, counts: map<string, nat>, key: string, c: nat)
    requires key !in keys
    ensures SumOver(keys, counts[key := c]) == SumOver(keys, counts)
  {
    if keys != [] {
      SumOverOther(keys[1..], counts, key, c);
    }
  }

  /** Adding one to a key listed exactly once adds one to the sum. */
  lemma {:induction false} SumOverIncrement(keys: seq<string>, counts: map<string, nat>, key: string)
    requires Distinct(keys) && key in keys && key in counts
    ensures SumOver(keys, counts[key := counts[key] + 1]) == SumOver(keys, counts) + 1
  {
    if keys[0] == key {
      assert key !in keys[1..];
      SumOverOther(keys[1..], counts, key, counts[key] + 1);
    } else {
      SumOverIncrement(keys[1..], counts, key);
    }
  }

  /** Each `count` of a non-empty key adds exactly one to the total. */
  lemma TallyTotal(t: Table, key: string)
    requires WellFormed(t)
    ensures Total(Tally(t, key)) == Total(t) + (if |key| == 0 then 0 else 1)
  {
    if |key| > 0 {
      if key in t.counts {
        SumOverIncrement(t.order, t.counts, key);
      } else {
        SumOverSnoc(t.order, t.counts[key := 1], key);
        SumOverOther(t.order, t.counts, key, 1);
      }
    }
  }

  /** The number of non-empty strings in `keys`. */
  function NonEmptyCount(keys: seq<string>): (n: nat)
    ensures n <= |keys|
  {
    if keys == [] then 0 else NonEmptyCount(keys[..|keys| - 1]) + (if |keys[|keys| - 1]| == 0 then 0 else 1)
  }

  /** Counting `keys` adds one to the total per non-empty key. */
  lemma {:induction false} TallyAllTotal(t: Table, keys: seq<string>)
    requires WellFormed(t)
    ensures Total(TallyAll(t, keys)) == Total(t) + NonEmptyCount(keys)
    decreases |keys|
  {
    if keys != [] {
      var init := keys[..|keys| - 1];
      TallyAllTotal(t, init);
      TallyAllWellFormed(t, init);
      TallyTotal(TallyAll(t, init), keys[|keys| - 1]);
    }
  }

  // ---------------------------------------------------------------------
  // Iteration

  /** `[...map.entries()]`: (key, count) pairs in insertion order. */
  function EntriesOf(t: Table): (r: seq<Entry>)
    ensures |r| == |t.order|
  {
    seq(|t.order|, i requires 0 <= i < |t.order| => (t.order[i], CountOf(t, t.order[i])))
  }

  /** The entries list every stored key once, with its stored count. */
  lemma EntriesComplete(t: Table)
    requires WellFormed(t)
    ensures forall e: Entry :: e in EntriesOf(t) <==> e.0 in t.counts && t.counts[e.0] == e.1
    ensures forall i, j :: 0 <= i < j < |EntriesOf(t)| ==> EntriesOf(t)[i].0 != EntriesOf(t)[j].0
  {
    var r := EntriesOf(t);
    forall e: Entry | e.0 in t.counts && t.counts[e.0] == e.1 ensures e in r {
      var i :| 0 <= i < |t.order| && t.order[i] == e.0;
      assert r[i] == e;
    }
  }

  // ---------------------------------------------------------------------
  // The counter object

  class Counter {
    var order: seq<string>
    var counts: map<string, nat>

    function Model(): Table
      reads this
    {
      Table(order, counts)
    }

    ghost predicate Valid()
      reads this
    {
      WellFormed(Model())
    }

    /** `new Counter()`: an empty map. */
    constructor ()
      ensures Valid() && Model() == Empty()
    {
      order := [];
      counts := map[];
    }

    /** `count(key)`, index.js:14-20. */
    method Count(key: string)
      requires Valid()
      modifies this
      ensures Valid()
      ensures Model() == Tally(old(Model()), key)
    {
      if |key| == 0 {
        return;
      }
      var previous := if key in counts then counts[key] else 0;
      if key !in counts {
        order := order + [key];
      }
      counts := counts[key := previous + 1];
    }

    /** `get(key)`, index.js:11-13. */
    method Get(key: string) returns (r: Option<nat>)
      requires Valid()
      ensures r == Lookup(Model(), key)
      ensures r.Some? ==> r.value >= 1 && key != ""
    {
      r := if key in counts then Some(counts[key]) else None;
    }

    /** `size`: the number of distinct keys counted. */
    method Size() returns (n: nat)
      requires Valid()
      ensures n == |Model().counts| == |Model().order|
    {
      n := |order|;
      DistinctKeysCardinality(order, counts);
    }

    /** `[...entries()]`. */
    method Entries() returns (es: seq<Entry>)
      ensures es == EntriesOf(Model())
    {
      var keys, table := order, counts;
      es := seq(|keys|, i requires 0 <= i < |keys| => (keys[i], if keys[i] in table then table[keys[i]] else 0));
    }

    /** `[...keys()]`. */
    method Keys() returns (ks: seq<string>)
      ensures ks == Model().order
    {
      ks := order;
    }
  }

  /** A sequence without repeats has as many elements as its set. */
  lemma {:induction false} DistinctSetSize(s: seq<string>)
    requires Distinct(s)
    ensures |set k | k in s| == |s|
    decreases |s|
  {
    if s != [] {
      var init, last := s[..|s| - 1], s[|s| - 1];
      assert s == init + [last];
      assert (set k | k in s) == (set k | k in init) + {last};
      assert last !in init by {
        forall i | 0 <= i < |init| ensures init[i] != last {
          assert init[i] == s[i];
        }
      }
      DistinctSetSize(init);
    }
  }

  /** As the listed keys are distinct and are the stored ones, `size` is the
      length of the order. */
  lemma DistinctKeysCardinality(order: seq<string>, counts: map<string, nat>)
    requires Distinct(order) && forall k :: k in counts <==> k in order
    ensures |counts| == |order|
  {
    DistinctSetSize(order);
    assert counts.Keys == set k | k in order;
  }
}
