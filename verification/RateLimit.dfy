/** The token-bucket limiter behind a bounded least-recently-called table. Time is a parameter of each call
    and never runs backwards, as `time.monotonic` promises. */
module RateLimit {
  import opened Order

  /** The caller's address. */
  datatype Key = Key(name: nat)

  const MAX_TRACKED_KEYS: nat := 10000

  // ---------------------------------------------------------------- one bucket

  /** What a bucket holds between calls. */
  datatype Cell = Cell(tokens: real, lastCheck: real)

  /** The tokens a rate has produced up to a time. */
  type Credit = real -> real

  function Accrual(rate: real): Credit {
    (t: real) => rate * t
  }

  function Topped(capacity: real, credit: Credit, cell: Cell, now: real): real {
    var filled := cell.tokens + (credit(now) - credit(cell.lastCheck));
    if capacity <= filled then capacity else filled
  }

  /** A bucket after one call, and whether the call was allowed. */
  function Called(capacity: real, credit: Credit, cell: Cell, now: real): (Cell, bool) {
    var tokens := Topped(capacity, credit, cell, now);
    if tokens < 1.0 then (Cell(tokens, now), false) else (Cell(tokens - 1.0, now), true)
  }

  function Fresh(capacity: real, now: real): Cell {
    Cell(capacity, now)
  }

  class TokenBucket {
    const capacity: real
    const refillPerSecond: real
    var tokens: real
    var lastCheck: real

    constructor (capacity: real, refillPerSecond: real, now: real)
      ensures this.capacity == capacity && this.refillPerSecond == refillPerSecond
      ensures Contents() == Fresh(capacity, now)
    {
      this.capacity := capacity;
      this.refillPerSecond := refillPerSecond;
      this.tokens := capacity;
      this.lastCheck := now;
    }

    function Contents(): Cell
      reads this
    {
      Cell(tokens, lastCheck)
    }

    method Allow(now: real) returns (allowed: bool)
      modifies this
      ensures (Contents(), allowed) == Called(capacity, Accrual(refillPerSecond), old(Contents()), now)
    {
      var elapsed := now - lastCheck;
      assert elapsed * refillPerSecond == refillPerSecond * now - refillPerSecond * lastCheck;
      lastCheck := now;
      var filled := tokens + elapsed * refillPerSecond;
      tokens := if capacity <= filled then capacity else filled;
      if tokens < 1.0 {
        return false;
      }
      tokens := tokens - 1.0;
      return true;
    }
  }

  // ---------------------------------------------------------------- the table

  /** The tracked keys, least recently called first, and what their buckets hold. */
  datatype Table = Table(order: seq<Key>, cells: map<Key, Cell>)

  /** The order lists each of these keys once. */
  ghost predicate Lists(order: seq<Key>, keys: set<Key>) {
    if order == [] then keys == {}
    else
      var last := order[|order| - 1];
      last in keys && Lists(order[..|order| - 1], keys - {last})
  }

  lemma {:induction false} ListsMeans(order: seq<Key>, keys: set<Key>)
    ensures Lists(order, keys) <==> NoDuplicates(order) && forall k :: k in order <==> k in keys
  {
    if order == [] {
      if forall k :: k in order <==> k in keys {
        assert keys == {};
      }
    } else {
      var front, last := order[..|order| - 1], order[|order| - 1];
      ListsMeans(front, keys - {last});
      assert order == front + [last];
      if NoDuplicates(order) && forall k :: k in order <==> k in keys {
        forall k ensures k in front <==> k in keys - {last} {
          if k in front {
            var i :| 0 <= i < |front| && front[i] == k;
            assert order[i] == k && order[i] != order[|order| - 1];
            assert k in order;
          }
          assert k in order <==> k in front || k == last;
        }
      }
    }
  }

  /** Each tracked key stands once in the order, and there are at most the bound. */
  ghost predicate Tracked(order: seq<Key>, keys: set<Key>) {
    Lists(order, keys) && |order| <= MAX_TRACKED_KEYS
  }

  ghost predicate ValidTable(t: Table) {
    Tracked(t.order, t.cells.Keys)
  }

  function PositionFrom(order: seq<Key>, k: Key, from: nat): (i: nat)
    requires from < |order| && k in order[from..]
    ensures from <= i < |order| && order[i] == k
    decreases |order| - from
  {
    if order[from] == k then from else PositionFrom(order, k, from + 1)
  }

  function Position(order: seq<Key>, k: Key): (i: nat)
    requires k in order
    ensures i < |order| && order[i] == k
  {
    PositionFrom(order, k, 0)
  }

  /** A key is dropped from the order wherever it stands. */
  function Dropped(order: seq<Key>, k: Key): seq<Key> {
    if k !in order then order
    else var i := Position(order, k); order[..i] + order[i + 1..]
  }

  function Evict(t: Table): Table {
    if |t.order| > MAX_TRACKED_KEYS then Table(t.order[1..], t.cells - {t.order[0]}) else t
  }

  /** The table after one call of a key, and whether the call was allowed. */
  function Step(capacity: real, credit: Credit, t: Table, k: Key, now: real): (Table, bool) {
    var held := if k in t.cells then t.cells[k] else Fresh(capacity, now);
    var (cell, allowed) := Called(capacity, credit, held, now);
    (Evict(Table(Recent(t.order, k), t.cells[k := cell])), allowed)
  }

  lemma DroppedOrder(order: seq<Key>, k: Key)
    requires NoDuplicates(order)
    ensures NoDuplicates(Dropped(order, k) + [k])
    ensures forall x :: x in Dropped(order, k) <==> x in order && x != k
    ensures |Dropped(order, k)| == if k in order then |order| - 1 else |order|
  {
    var rest := Dropped(order, k);
    if k in order {
      var i := Position(order, k);
      forall x ensures x in rest <==> x in order && x != k {
        if x in order && x != k {
          var j := Position(order, x);
          assert if j < i then rest[j] == x else rest[j - 1] == x;
        }
        if x in rest {
          var j := Position(rest, x);
          assert rest[j] == if j < i then order[j] else order[j + 1];
        }
      }
    }
  }

  function Recent(order: seq<Key>, k: Key): seq<Key> {
    Dropped(order, k) + [k]
  }

  /** Calling a key keeps the bound, and the called key is never the one evicted. */
  lemma TrackedStep(order: seq<Key>, keys: set<Key>, k: Key)
    requires Tracked(order, keys)
    ensures var wide := Recent(order, k);
            && (k in keys ==> |wide| <= MAX_TRACKED_KEYS && Tracked(wide, keys))
            && (|wide| <= MAX_TRACKED_KEYS ==> Tracked(wide, keys + {k}))
            && (|wide| > MAX_TRACKED_KEYS ==>
                  |wide| == MAX_TRACKED_KEYS + 1 && k != wide[0] && Tracked(wide[1..], keys + {k} - {wide[0]}))
  {
    ListsMeans(order, keys);
    DroppedOrder(order, k);
    var wide := Recent(order, k);
    ListsMeans(wide, keys + {k});
    assert keys + {k} == if k in keys then keys else keys + {k};
    if |wide| > MAX_TRACKED_KEYS {
      OldestLeaves(wide, keys + {k});
      assert wide[0] == order[0];
    }
  }

  lemma OldestLeaves(order: seq<Key>, keys: set<Key>)
    requires order != [] && Lists(order, keys)
    ensures Lists(order[1..], keys - {order[0]})
  {
    ListsMeans(order, keys);
    ListsMeans(order[1..], keys - {order[0]});
  }

  /** The table never outgrows its bound, and the called key ends up in it, youngest. */
  lemma StepKeepsTable(capacity: real, credit: Credit, t: Table, k: Key, now: real)
    requires ValidTable(t)
    ensures var after := Step(capacity, credit, t, k, now).0;
            && ValidTable(after) && k in after.cells
            && after.order != [] && after.order[|after.order| - 1] == k
  {
    TrackedStep(t.order, t.cells.Keys, k);
    var after := Step(capacity, credit, t, k, now).0;
    var wide := Recent(t.order, k);
    if |wide| > MAX_TRACKED_KEYS {
      assert after.cells.Keys == t.cells.Keys + {k} - {wide[0]};
    } else {
      assert after.cells.Keys == t.cells.Keys + {k};
    }
  }

  class RateLimiter {
    const capacity: real
    const refillPerSecond: real
    var order: seq<Key>
    var buckets: map<Key, TokenBucket>

    constructor (capacity: real)
      ensures Valid() && View() == Table([], map[])
      ensures this.capacity == capacity && this.refillPerSecond == capacity / 60.0
    {
      this.capacity := capacity;
      this.refillPerSecond := capacity / 60.0;
      this.order := [];
      this.buckets := map[];
    }

    /** Every bucket has the limiter's rates, and no two keys share one. */
    ghost predicate Wired()
      reads this, buckets.Values
    {
      && (forall k | k in buckets ::
            buckets[k].capacity == capacity && buckets[k].refillPerSecond == refillPerSecond)
      && (forall j, k | j in buckets && k in buckets && buckets[j] == buckets[k] :: j == k)
    }

    ghost predicate Valid()
      reads this, buckets.Values
    {
      Tracked(order, buckets.Keys) && Wired()
    }

    ghost function View(): Table
      reads this, buckets.Values
    {
      Table(order, map k | k in buckets :: buckets[k].Contents())
    }

    /** Least recently called keys leave until the bound holds again. */
    method MakeRoom()
      requires |order| <= MAX_TRACKED_KEYS + 1
      modifies this`order, this`buckets
      ensures |old(order)| <= MAX_TRACKED_KEYS ==> order == old(order) && buckets == old(buckets)
      ensures |old(order)| > MAX_TRACKED_KEYS ==>
                order == old(order)[1..] && buckets == old(buckets) - {old(order)[0]}
    {
      ghost var wide, all := order, buckets;
      while |order| > MAX_TRACKED_KEYS
        invariant (order == wide && buckets == all) ||
                  (|wide| > MAX_TRACKED_KEYS && order == wide[1..] && buckets == all - {wide[0]})
        decreases |order|
      {
        buckets := buckets - {order[0]};
        order := order[1..];
      }
    }

    /** A key not tracked yet gets a bucket, and the least recently called key makes room for it. */
    method Insert(key: Key, bucket: TokenBucket)
      requires Tracked(order, buckets.Keys) && key !in buckets
      modifies this`order, this`buckets
      ensures var wide := Recent(old(order), key);
              && order == (if |wide| > MAX_TRACKED_KEYS then wide[1..] else wide)
              && buckets == (if |wide| > MAX_TRACKED_KEYS then old(buckets)[key := bucket] - {wide[0]}
                             else old(buckets)[key := bucket])
      ensures Tracked(order, buckets.Keys) && key in buckets && buckets[key] == bucket
    {
      TrackedStep(order, buckets.Keys, key);
      ghost var wide, keys := Recent(order, key), buckets.Keys + {key};
      order := Dropped(order, key) + [key];
      buckets := buckets[key := bucket];
      MakeRoom();
      assert buckets.Keys == if |wide| > MAX_TRACKED_KEYS then keys - {wide[0]} else keys;
      assert Tracked(order, buckets.Keys);
      assert buckets[key] == bucket;
    }

    /** The bucket of the called key is at hand, and the key stands at the young end of the order. */
    method Touch(key: Key, now: real) returns (bucket: TokenBucket)
      requires Valid()
      modifies this`order, this`buckets
      ensures Tracked(order, buckets.Keys) && key in buckets && buckets[key] == bucket
      ensures key in old(buckets) ==> bucket == old(buckets)[key] && buckets == old(buckets)
      ensures key !in old(buckets) ==> fresh(bucket) && bucket.Contents() == Fresh(capacity, now)
      ensures bucket.capacity == capacity && bucket.refillPerSecond == refillPerSecond
      ensures forall k | k in buckets && k != key ::
                k in old(buckets) && buckets[k] == old(buckets)[k] && buckets[k] != bucket &&
                buckets[k].Contents() == old(View()).cells[k]
      ensures Wired() && fresh(buckets.Values - old(buckets.Values))
      ensures var wide := Recent(old(order), key);
              && order == (if |wide| > MAX_TRACKED_KEYS then wide[1..] else wide)
              && (forall k :: k in buckets <==>
                    (k == key || k in old(buckets)) && (|wide| > MAX_TRACKED_KEYS ==> k != wide[0]))
    {
      hide Lists;
      if key !in buckets {
        bucket := new TokenBucket(capacity, refillPerSecond, now);
        Insert(key, bucket);
      } else {
        bucket := buckets[key];
        TrackedStep(order, buckets.Keys, key);
        order := Dropped(order, key) + [key];
        assert Tracked(order, buckets.Keys);
        assert buckets[key := bucket] == buckets;
      }
    }

    method Allow(key: Key, now: real) returns (allowed: bool)
      requires Valid()
      modifies this`order, this`buckets, buckets.Values
      ensures Valid() && fresh(buckets.Values - old(buckets.Values))
      ensures (View(), allowed) == Step(capacity, Accrual(refillPerSecond), old(View()), key, now)
    {
      ghost var t := View();
      var bucket := Touch(key, now);
      ghost var held := bucket.Contents();
      assert held == if key in t.cells then t.cells[key] else Fresh(capacity, now);
      allowed := bucket.Allow(now);
      Stepped(t, key, bucket);
    }

    /** The view after a call: the called key's cell is new, and the oldest key may have left. */
    lemma Stepped(t: Table, key: Key, bucket: TokenBucket)
      requires key in buckets && buckets[key] == bucket
      requires var wide := Recent(t.order, key);
               && order == (if |wide| > MAX_TRACKED_KEYS then wide[1..] else wide)
               && (forall k :: k in buckets <==>
                     (k == key || k in t.cells) && (|wide| > MAX_TRACKED_KEYS ==> k != wide[0]))
      requires forall k | k in buckets && k != key :: t.cells[k] == buckets[k].Contents()
      ensures View() == Evict(Table(Recent(t.order, key), t.cells[key := bucket.Contents()]))
    {}
  }
}
