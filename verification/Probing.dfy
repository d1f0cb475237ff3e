/**
 Wrapping linear probing, apart from hashing (ts/src/tree.ts:113-126): which slot a home slot
 lands in, and why the set of occupied slots does not depend on the order of the insertions.
 */
module Probing {
  import opened Arith

  /** The slot d steps above a home slot, wrapping at capacity. */
  function At(capacity: nat, home: nat, d: nat): nat
    requires home < capacity && d <= capacity
  {
    if home + d < capacity then home + d else home + d - capacity
  }

  lemma AtIsModulo(capacity: nat, home: nat, d: nat)
    requires home < capacity && d < capacity
    ensures At(capacity, home, d) == (home + d) % capacity
    ensures At(capacity, home, d + 1) == (At(capacity, home, d) + 1) % capacity
  {
    var x, y := At(capacity, home, d), At(capacity, home, d + 1);
    DivModUnique(home + d, capacity, if home + d < capacity then 0 else 1, x);
    DivModUnique(x + 1, capacity, if x + 1 < capacity then 0 else 1, y);
  }

  lemma AtComposes(capacity: nat, home: nat, d: nat, e: nat)
    requires home < capacity && d < capacity && e < capacity
    ensures At(capacity, At(capacity, home, d), e)
      == At(capacity, home, if d + e < capacity then d + e else d + e - capacity)
  {
  }

  /** How many steps from d on until a free slot, or capacity when there is none. */
  function Steps(taken: set<nat>, capacity: nat, home: nat, d: nat): (r: nat)
    requires home < capacity && d <= capacity
    ensures d <= r <= capacity
    ensures forall k :: d <= k < r ==> At(capacity, home, k) in taken
    ensures r < capacity ==> At(capacity, home, r) !in taken
    decreases capacity - d
  {
    if d == capacity || At(capacity, home, d) !in taken then d
    else Steps(taken, capacity, home, d + 1)
  }

  function Distance(taken: set<nat>, capacity: nat, home: nat): nat
    requires home < capacity
  {
    Steps(taken, capacity, home, 0)
  }

  /** The first free slot from the home slot on. */
  function Landing(taken: set<nat>, capacity: nat, home: nat): nat
    requires home < capacity
  {
    At(capacity, home, Distance(taken, capacity, home))
  }

  function Insert(taken: set<nat>, capacity: nat, home: nat): set<nat>
    requires home < capacity
  {
    if Distance(taken, capacity, home) == capacity then taken
    else taken + {Landing(taken, capacity, home)}
  }

  predicate AreHomes(homes: seq<nat>, capacity: nat) {
    forall i :: 0 <= i < |homes| ==> homes[i] < capacity
  }

  /** The slots occupied once every home slot has been inserted in turn. */
  function Fill(taken: set<nat>, capacity: nat, homes: seq<nat>): set<nat>
    requires AreHomes(homes, capacity)
    decreases |homes|
  {
    if homes == [] then taken else Fill(Insert(taken, capacity, homes[0]), capacity, homes[1..])
  }

  /** The slot each home slot is assigned, in turn. */
  function Slots(taken: set<nat>, capacity: nat, homes: seq<nat>): (r: seq<nat>)
    requires AreHomes(homes, capacity)
    ensures |r| == |homes|
    decreases |homes|
  {
    if homes == [] then []
    else [Landing(taken, capacity, homes[0])] + Slots(Insert(taken, capacity, homes[0]), capacity, homes[1..])
  }

  lemma {:induction false} FillSnoc(taken: set<nat>, capacity: nat, homes: seq<nat>, home: nat)
    requires AreHomes(homes, capacity) && home < capacity
    ensures var full := Fill(taken, capacity, homes);
      && Fill(taken, capacity, homes + [home]) == Insert(full, capacity, home)
      && Slots(taken, capacity, homes + [home]) == Slots(taken, capacity, homes) + [Landing(full, capacity, home)]
    decreases |homes|
  {
    if homes != [] {
      assert (homes + [home])[1..] == homes[1..] + [home];
      FillSnoc(Insert(taken, capacity, homes[0]), capacity, homes[1..], home);
    }
  }

  lemma {:induction false} LeastIsDistance(taken: set<nat>, capacity: nat, home: nat, d: nat)
    requires home < capacity && d < capacity
    requires At(capacity, home, d) !in taken
    requires forall k :: 0 <= k < d ==> At(capacity, home, k) in taken
    ensures Distance(taken, capacity, home) == d
  {
    var r := Distance(taken, capacity, home);
    if r < capacity { assert At(capacity, home, r) !in taken; }
  }

  /** A table with no free slot from one home has none at all. */
  lemma NoneFree(taken: set<nat>, capacity: nat, home: nat, slot: nat)
    requires home < capacity && slot < capacity && Distance(taken, capacity, home) == capacity
    ensures slot in taken
  {
    var d := if slot >= home then slot - home else slot + capacity - home;
    assert At(capacity, home, d) == slot;
  }

  function Range(n: nat): (r: set<nat>)
    ensures |r| == n
    ensures forall s: nat :: s in r <==> s < n
  {
    if n == 0 then {} else Range(n - 1) + {n - 1}
  }

  /** Fewer occupied slots than the capacity leave one to find. */
  lemma SpaceLeft(taken: set<nat>, capacity: nat, home: nat)
    requires home < capacity && |taken| < capacity
    ensures Distance(taken, capacity, home) < capacity
    ensures Landing(taken, capacity, home) !in taken
    ensures |Insert(taken, capacity, home)| == |taken| + 1
  {
    if Distance(taken, capacity, home) == capacity {
      forall i | i in Range(capacity) ensures i in taken { NoneFree(taken, capacity, home, i); }
      SubsetSize(Range(capacity), taken);
    }
  }

  lemma {:induction false} SubsetSize(a: set<nat>, b: set<nat>)
    requires a <= b
    ensures |a| <= |b|
  {
    if a != {} {
      var x :| x in a;
      SubsetSize(a - {x}, b - {x});
    }
  }

  /** The slot is some number of steps above the home slot, and every slot on the way is occupied. */
  ghost predicate Tight(full: set<nat>, capacity: nat, home: nat, slot: nat)
    requires home < capacity
  {
    exists d: nat :: d < capacity && At(capacity, home, d) == slot && AllTaken(full, capacity, home, d)
  }

  ghost predicate AllTaken(full: set<nat>, capacity: nat, home: nat, d: nat)
    requires home < capacity && d < capacity
  {
    forall k :: 0 <= k <= d ==> At(capacity, home, k) in full
  }

  predicate AllFresh(slots: seq<nat>, capacity: nat, taken: set<nat>) {
    forall i :: 0 <= i < |slots| ==> slots[i] < capacity && slots[i] !in taken
  }

  predicate NoTwoAlike(slots: seq<nat>) {
    forall i, j :: 0 <= i < j < |slots| ==> slots[i] != slots[j]
  }

  function Members(slots: seq<nat>): set<nat> {
    set s | s in slots
  }

  lemma ConsFresh(slot: nat, rest: seq<nat>, capacity: nat, taken: set<nat>)
    requires slot < capacity && slot !in taken
    requires AllFresh(rest, capacity, taken + {slot}) && NoTwoAlike(rest)
    ensures AllFresh([slot] + rest, capacity, taken) && NoTwoAlike([slot] + rest)
    ensures Members([slot] + rest) == {slot} + Members(rest)
  {
    var slots := [slot] + rest;
    assert forall i :: 1 <= i < |slots| ==> slots[i] == rest[i - 1];
    assert forall s :: s in slots <==> s == slot || s in rest;
  }

  /** With room for every home slot, the slots assigned are in range, free before, and no two alike. */
  lemma {:induction false} ProbingIsTotal(taken: set<nat>, capacity: nat, homes: seq<nat>)
    requires AreHomes(homes, capacity) && |taken| + |homes| <= capacity
    ensures AllFresh(Slots(taken, capacity, homes), capacity, taken)
    ensures NoTwoAlike(Slots(taken, capacity, homes))
    ensures Fill(taken, capacity, homes) == taken + Members(Slots(taken, capacity, homes))
    decreases |homes|
  {
    if homes != [] {
      var slot, next := Landing(taken, capacity, homes[0]), Insert(taken, capacity, homes[0]);
      SpaceLeft(taken, capacity, homes[0]);
      ProbingIsTotal(next, capacity, homes[1..]);
      ConsFresh(slot, Slots(next, capacity, homes[1..]), capacity, taken);
    }
  }

  lemma {:induction false} FillKeeps(taken: set<nat>, capacity: nat, homes: seq<nat>)
    requires AreHomes(homes, capacity)
    ensures taken <= Fill(taken, capacity, homes)
    decreases |homes|
  {
    if homes != [] { FillKeeps(Insert(taken, capacity, homes[0]), capacity, homes[1..]); }
  }

  /** Each home slot reaches its assigned slot across occupied slots only. */
  lemma {:induction false} ProbingIsTight(taken: set<nat>, capacity: nat, homes: seq<nat>, i: nat)
    requires AreHomes(homes, capacity) && |taken| + |homes| <= capacity && i < |homes|
    ensures Tight(Fill(taken, capacity, homes), capacity, homes[i], Slots(taken, capacity, homes)[i])
    decreases |homes|
  {
    var next := Insert(taken, capacity, homes[0]);
    SpaceLeft(taken, capacity, homes[0]);
    if i > 0 {
      ProbingIsTight(next, capacity, homes[1..], i - 1);
    } else {
      FillKeeps(next, capacity, homes[1..]);
      assert AllTaken(Fill(taken, capacity, homes), capacity, homes[0], Distance(taken, capacity, homes[0]));
    }
  }

  // Order independence

  /** Once its landing is occupied, a home slot probes on exactly as the landing itself would. */
  lemma ProbeResumesAtLanding(taken: set<nat>, capacity: nat, home: nat)
    requires home < capacity && Distance(taken, capacity, home) < capacity
    ensures var p := Landing(taken, capacity, home);
      Insert(taken + {p}, capacity, home) == Insert(taken + {p}, capacity, p)
  {
    var d, p := Distance(taken, capacity, home), Landing(taken, capacity, home);
    var after := taken + {p};
    var e := Distance(after, capacity, p);
    if e == capacity {
      var r := Distance(after, capacity, home);
      if r < capacity { NoneFree(after, capacity, p, At(capacity, home, r)); }
    } else {
      AtComposes(capacity, home, d, e);
      assert d + e < capacity;
      forall k | 0 <= k < d + e ensures At(capacity, home, k) in after {
        if k > d { assert At(capacity, home, k) == At(capacity, p, k - d); }
      }
      LeastIsDistance(after, capacity, home, d + e);
    }
  }

  lemma InsertionsCommute(taken: set<nat>, capacity: nat, a: nat, b: nat)
    requires a < capacity && b < capacity
    ensures Insert(Insert(taken, capacity, a), capacity, b) == Insert(Insert(taken, capacity, b), capacity, a)
  {
    var da, db := Distance(taken, capacity, a), Distance(taken, capacity, b);
    if da == capacity || db == capacity {
      if da < capacity { NoneFree(taken, capacity, b, Landing(taken, capacity, a)); }
      if db < capacity { NoneFree(taken, capacity, a, Landing(taken, capacity, b)); }
    } else {
      var p, q := Landing(taken, capacity, a), Landing(taken, capacity, b);
      if p == q {
        ProbeResumesAtLanding(taken, capacity, a);
        ProbeResumesAtLanding(taken, capacity, b);
      } else {
        LeastIsDistance(taken + {p}, capacity, b, db);
        LeastIsDistance(taken + {q}, capacity, a, da);
        assert taken + {p} + {q} == taken + {q} + {p};
      }
    }
  }

  lemma {:induction false} FirstCanMove(taken: set<nat>, capacity: nat, homes: seq<nat>, i: nat)
    requires AreHomes(homes, capacity) && i < |homes|
    ensures Fill(taken, capacity, homes)
      == Fill(Insert(taken, capacity, homes[i]), capacity, homes[..i] + homes[i + 1..])
    decreases |homes|
  {
    if i > 0 {
      var rest := homes[1..];
      FirstCanMove(Insert(taken, capacity, homes[0]), capacity, rest, i - 1);
      InsertionsCommute(taken, capacity, homes[0], homes[i]);
      assert (homes[..i] + homes[i + 1..])[1..] == rest[..i - 1] + rest[i..];
    } else {
      assert homes[..0] + homes[1..] == homes[1..];
    }
  }

  lemma WithoutOne<T>(xs: seq<T>, i: nat)
    requires i < |xs|
    ensures multiset(xs[..i] + xs[i + 1..]) == multiset(xs) - multiset{xs[i]}
  {
    assert xs == xs[..i] + [xs[i]] + xs[i + 1..];
  }

  /** The first of one list is somewhere in any reordering of it, and the rest of the two match. */
  lemma FirstOf<T>(xs: seq<T>, ys: seq<T>) returns (i: nat)
    requires xs != [] && multiset(xs) == multiset(ys)
    ensures i < |ys| && ys[i] == xs[0] && multiset(xs[1..]) == multiset(ys[..i] + ys[i + 1..])
  {
    assert xs[0] in multiset(ys);
    i :| 0 <= i < |ys| && ys[i] == xs[0];
    WithoutOne(xs, 0);
    WithoutOne(ys, i);
    assert xs[..0] + xs[1..] == xs[1..];
  }

  /** The occupied slots depend on the home slots and not on the order they are processed in. */
  lemma {:induction false} OccupancyIgnoresOrder(taken: set<nat>, capacity: nat, homes: seq<nat>, others: seq<nat>)
    requires AreHomes(homes, capacity) && AreHomes(others, capacity)
    requires multiset(homes) == multiset(others)
    ensures Fill(taken, capacity, homes) == Fill(taken, capacity, others)
    decreases |homes|
  {
    hide Insert;
    if homes == [] {
      assert |multiset(others)| == 0;
    } else {
      var i := FirstOf(homes, others);
      FirstCanMove(taken, capacity, others, i);
      OccupancyIgnoresOrder(Insert(taken, capacity, homes[0]), capacity, homes[1..], others[..i] + others[i + 1..]);
    }
  }
}
