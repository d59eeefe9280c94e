/** A fixed-capacity cache with second-chance (clock) replacement. The
    queue is a list of entries, front first; a hit sets the entry's
    referenced flag, and a miss on a full cache looks at the back entry
    repeatedly: a flagged one loses its flag and moves to the front, an
    unflagged one is evicted. The new key then enters at the front. */
module SecondChance {
  import opened Seqs

  datatype Entry<K> = Entry(key: K, flag: bool)

  function Keys<K>(q: seq<Entry<K>>): (r: seq<K>)
    ensures |r| == |q|
    ensures forall j :: 0 <= j < |q| ==> r[j] == q[j].key
  {
    if q == [] then [] else [q[0].key] + Keys(q[1..])
  }

  /** The number of entries with their flag set. */
  function Flagged<K>(q: seq<Entry<K>>): (r: nat)
    ensures r <= |q|
  {
    if q == [] then 0 else (if q[0].flag then 1 else 0) + Flagged(q[1..])
  }

  lemma {:induction false} FlaggedAppend<K>(a: seq<Entry<K>>, b: seq<Entry<K>>)
    ensures Flagged(a + b) == Flagged(a) + Flagged(b)
  {
    if a != [] {
      FlaggedAppend(a[1..], b);
      assert (a + b)[0] == a[0];
      assert (a + b)[1..] == a[1..] + b;
      assert Flagged(a + b) == (if a[0].flag then 1 else 0) + Flagged(a[1..] + b);
    } else {
      assert a + b == b;
    }
  }

  /** The index of the first entry holding key, or |q| when there is none. */
  function Find<K(==)>(q: seq<Entry<K>>, key: K): (i: nat)
    ensures i <= |q|
    ensures i < |q| ==> q[i].key == key
    ensures forall j :: 0 <= j < i ==> q[j].key != key
  {
    if q == [] then 0 else if q[0].key == key then 0 else 1 + Find(q[1..], key)
  }

  /** One pass of the eviction loop on a queue of n entries: the back entry
      either goes to the front without its flag or is dropped. */
  function EvictStep<K>(q: seq<Entry<K>>): (r: seq<Entry<K>>)
    requires q != []
    ensures |r| == (if q[|q| - 1].flag then |q| else |q| - 1)
  {
    var back := q[|q| - 1];
    if back.flag then ([back.(flag := false)] + q)[..|q|] else q[..|q| - 1]
  }

  /** A pass clears a flag without changing the length, or removes the
      back entry: the loop's measure goes down. */
  lemma EvictStepShrinks<K>(q: seq<Entry<K>>)
    requires q != []
    ensures var r := EvictStep(q);
      && |r| + Flagged(r) < |q| + Flagged(q)
      && |r| == (if q[|q| - 1].flag then |q| else |q| - 1)
  {
    var back := q[|q| - 1];
    FlaggedAppend(q[..|q| - 1], [back]);
    FlaggedAppend([back.(flag := false)], q[..|q| - 1]);
    assert q == q[..|q| - 1] + [back];
    if back.flag {
      assert EvictStep(q) == [back.(flag := false)] + q[..|q| - 1];
    }
  }

  /** A pass only moves or drops keys. */
  lemma EvictStepKeeps<K>(q: seq<Entry<K>>)
    requires q != []
    ensures var r := EvictStep(q);
      && Elems(Keys(r)) <= Elems(Keys(q))
      && (NoDup(Keys(q)) ==> NoDup(Keys(r)))
  {
    var kq, n := Keys(q), |q|;
    var r := EvictStep(q);
    if q[n - 1].flag {
      assert r == [q[n - 1].(flag := false)] + q[..n - 1];
      assert Keys(r) == [kq[n - 1]] + kq[..n - 1];
      RotateKeeps(kq);
    } else {
      assert Keys(r) == kq[..n - 1];
      DropBackKeeps(kq);
    }
  }

  lemma RotateKeeps<T>(s: seq<T>)
    requires s != []
    ensures var r := [s[|s| - 1]] + s[..|s| - 1];
      Elems(r) <= Elems(s) && (NoDup(s) ==> NoDup(r))
  {
    var r := [s[|s| - 1]] + s[..|s| - 1];
    forall x | x in Elems(r) ensures x in Elems(s) {
      var j :| 0 <= j < |r| && r[j] == x;
      assert x == s[if j == 0 then |s| - 1 else j - 1];
    }
    if NoDup(s) {
      forall a, b | 0 <= a < b < |r| ensures r[a] != r[b] {
        assert r[b] == s[b - 1];
        assert r[a] == s[if a == 0 then |s| - 1 else a - 1];
      }
    }
  }

  lemma DropBackKeeps<T>(s: seq<T>)
    requires s != []
    ensures Elems(s[..|s| - 1]) <= Elems(s) && (NoDup(s) ==> NoDup(s[..|s| - 1]))
  {
    forall x | x in Elems(s[..|s| - 1]) ensures x in Elems(s) {
      var j :| 0 <= j < |s| - 1 && s[j] == x;
    }
  }

  /** The eviction loop: passes while the queue is at capacity. Each pass
      clears a flag or shortens the queue, so the loop ends. */
  function Evict<K>(q: seq<Entry<K>>, maxSize: nat): (r: seq<Entry<K>>)
    requires maxSize > 0
    ensures |q| <= maxSize ==> |r| < maxSize
    ensures |q| != maxSize ==> r == q
    decreases |q| + Flagged(q)
  {
    if |q| != maxSize then q
    else
      EvictStepShrinks(q);
      Evict(EvictStep(q), maxSize)
  }

  /** A queue at capacity evicts as the queue one pass later does. */
  lemma EvictUnfold<K>(q: seq<Entry<K>>, maxSize: nat)
    requires maxSize > 0 && |q| == maxSize
    ensures Evict(q, maxSize) == Evict(EvictStep(q), maxSize)
  {
  }

  /** The entry holding key gets its flag set; nothing else changes. */
  function MarkHit<K(==)>(q: seq<Entry<K>>, key: K): (r: seq<Entry<K>>)
    requires key in Keys(q)
    ensures Keys(r) == Keys(q) && r[Find(q, key)] == Entry(key, true)
  {
    var i := Find(q, key);
    q[i := q[i].(flag := true)]
  }

  class Cache<K(==)> {
    const maxSize: nat
    var queue: seq<Entry<K>>

    /** At most maxSize entries, each key at most once. */
    ghost predicate Valid()
      reads this
    {
      |queue| <= maxSize && NoDup(Keys(queue))
    }

    constructor (cacheSize: nat)
      ensures Valid() && maxSize == cacheSize && queue == []
    {
      maxSize := cacheSize;
      queue := [];
    }

    function Size(): (r: nat)
      reads this
      ensures r == |queue|
    {
      |queue|
    }

    function Empty(): (r: bool)
      reads this
      ensures r <==> queue == []
    {
      |queue| == 0
    }

    /** Look up key: on a hit, set its flag; on a miss, make room by the
        second-chance loop and put the key at the front, unflagged. A
        capacity of 0 would empty the queue past its end, so it is excluded. */
    method Get(key: K)
      requires Valid() && maxSize > 0
      modifies this
      ensures Valid()
      ensures key in Keys(queue)
      ensures key in Keys(old(queue)) ==> queue == MarkHit(old(queue), key)
      ensures key !in Keys(old(queue)) ==> queue == [Entry(key, false)] + Evict(old(queue), maxSize)
    {
      var i := Find(queue, key);
      if i < |queue| {
        queue := queue[i := queue[i].(flag := true)];
        HitKeepsKeys(old(queue), key);
        assert queue == MarkHit(old(queue), key);
        return;
      }
      assert key !in Keys(queue);
      while |queue| == maxSize
        invariant |queue| <= maxSize
        invariant Evict(queue, maxSize) == Evict(old(queue), maxSize)
        decreases |queue| + Flagged(queue)
      {
        EvictStepShrinks(queue);
        EvictUnfold(queue, maxSize);
        ghost var before := queue;
        var back := queue[|queue| - 1];
        if back.flag {
          back := back.(flag := false);
          queue := [back] + queue;
        }
        queue := queue[..|queue| - 1];
        assert queue == EvictStep(before);
      }
      MissKeeps(old(queue), key, maxSize);
      queue := [Entry(key, false)] + queue;
    }

    /** The entries as `(key flag)` separated by single spaces and ended by
        a newline, or `<empty>` and a newline; show renders a key. */
    function Print(show: K -> string): (r: string)
      reads this
      ensures queue == [] <==> r == "<empty>\n"
      ensures queue != [] ==> r == Rendered(queue, show) + "\n"
    {
      if |queue| > 0 then
        var r := Rendered(queue, show) + "\n";
        assert r[0] != "<empty>\n"[0];
        r
      else "<empty>\n"
    }
  }

  /** "(key flag)": the rendered key between "(" and " 0)" or " 1)". */
  function RenderEntry<K>(e: Entry<K>, show: K -> string): (s: string)
    ensures |s| >= 4 && s[0] == '(' && s[|s| - 3..] == [' ', if e.flag then '1' else '0', ')']
    ensures s[1..|s| - 3] == show(e.key)
  {
    "(" + show(e.key) + " " + (if e.flag then "1" else "0") + ")"
  }

  /** Rendered entries, a single space between neighbours. */
  function Rendered<K>(q: seq<Entry<K>>, show: K -> string): (r: string)
    requires q != []
    ensures |r| >= 3 && r[0] == '(' && r[|r| - 1] == ')'
  {
    if |q| == 1 then RenderEntry(q[0], show)
    else RenderEntry(q[0], show) + " " + Rendered(q[1..], show)
  }

  // ---------------------------------------------------------------------
  // What a hit and a miss do

  /** A hit sets the flag of the key's entry and changes no other entry,
      no key and no position. */
  lemma HitKeepsKeys<K>(q: seq<Entry<K>>, key: K)
    requires key in Keys(q)
    ensures var r := MarkHit(q, key);
      && |r| == |q| && Keys(r) == Keys(q)
      && r[Find(q, key)] == Entry(key, true)
      && forall j :: 0 <= j < |q| && j != Find(q, key) ==> r[j] == q[j]
  {
  }

  /** After a miss the queue holds the new key once, at the front, and
      still fits. */
  lemma MissKeeps<K>(q: seq<Entry<K>>, key: K, maxSize: nat)
    requires maxSize > 0 && |q| <= maxSize && NoDup(Keys(q)) && key !in Keys(q)
    ensures var r := [Entry(key, false)] + Evict(q, maxSize);
      |r| <= maxSize && NoDup(Keys(r)) && key in Keys(r)
  {
    EvictKeeps(q, maxSize);
    var kept := Evict(q, maxSize);
    assert key !in Keys(kept) by {
      assert key !in Elems(Keys(q));
    }
    NoDupConcat([key], Keys(kept));
    assert Keys([Entry(key, false)] + kept) == [key] + Keys(kept);
  }

  /** On a full queue the loop removes exactly one entry; on a queue below
      capacity it does nothing. Keys only ever leave, so each key stays at
      most once. */
  lemma {:induction false} EvictKeeps<K>(q: seq<Entry<K>>, maxSize: nat)
    requires maxSize > 0 && |q| <= maxSize
    ensures |q| < maxSize ==> Evict(q, maxSize) == q
    ensures |q| == maxSize ==> |Evict(q, maxSize)| == maxSize - 1
    ensures Elems(Keys(Evict(q, maxSize))) <= Elems(Keys(q))
    ensures NoDup(Keys(q)) ==> NoDup(Keys(Evict(q, maxSize)))
    decreases |q| + Flagged(q)
  {
    if |q| == maxSize {
      EvictStepShrinks(q);
      EvictStepKeeps(q);
      EvictKeeps(EvictStep(q), maxSize);
    }
  }
}
