/** The toplex scan of a hypergraph: walking the edges in order, an edge is
    kept unless its node set lies inside a kept edge's node set, and kept
    edges whose node sets lie inside the new edge's are dropped. Edges are
    named by their position in the walk and given by their node sets. */
module Toplexes {
  import opened Values

  /** Edge i is a toplex: every node set containing edge i's is equal to
      it (no edge has a strictly larger node set), and no earlier edge has
      the same node set. */
  predicate IsToplex(sets: seq<set<Value>>, i: nat)
    requires i < |sets|
  {
    (forall d :: 0 <= d < |sets| && sets[i] <= sets[d] ==> sets[d] <= sets[i])
    && (forall d :: 0 <= d < i ==> !(sets[d] <= sets[i] && sets[i] <= sets[d]))
  }

  predicate Increasing(ts: seq<nat>)
  {
    forall a, b :: 0 <= a < b < |ts| ==> ts[a] < ts[b]
  }

  /** No kept node set lies inside another kept one. */
  predicate Antichain(sets: seq<set<Value>>, ts: seq<nat>)
    requires forall a :: 0 <= a < |ts| ==> ts[a] < |sets|
  {
    forall a, b :: 0 <= a < |ts| && 0 <= b < |ts| && a != b ==> !(sets[ts[a]] <= sets[ts[b]])
  }

  /** Edge d's node set lies inside a kept one that is strictly larger or
      comes no later than d. */
  predicate Covered(sets: seq<set<Value>>, ts: seq<nat>, d: nat)
    requires d < |sets| && forall a :: 0 <= a < |ts| ==> ts[a] < |sets|
  {
    exists a :: 0 <= a < |ts| && sets[d] <= sets[ts[a]] && (ts[a] <= d || !(sets[ts[a]] <= sets[d]))
  }

  /** The kept edges among `ts` that are not inside node set `e`. */
  function Kept(sets: seq<set<Value>>, ts: seq<nat>, e: set<Value>): (r: seq<nat>)
    requires forall a :: 0 <= a < |ts| ==> ts[a] < |sets|
    ensures forall x :: x in r <==> x in ts && !(sets[x] <= e)
    ensures forall a :: 0 <= a < |r| ==> r[a] < |sets|
    decreases |ts|
  {
    if ts == [] then []
    else
      var p := Kept(sets, ts[..|ts| - 1], e);
      assert forall x :: x in ts <==> x in ts[..|ts| - 1] || x == ts[|ts| - 1];
      var last := ts[|ts| - 1];
      if sets[last] <= e then p else p + [last]
  }

  /** Dropping edges keeps the order. */
  lemma {:induction false} KeptIncreasing(sets: seq<set<Value>>, ts: seq<nat>, e: set<Value>)
    requires forall a :: 0 <= a < |ts| ==> ts[a] < |sets|
    requires Increasing(ts)
    ensures Increasing(Kept(sets, ts, e))
    decreases |ts|
  {
    if ts != [] {
      var q := ts[..|ts| - 1];
      var last := ts[|ts| - 1];
      assert Increasing(q);
      KeptIncreasing(sets, q, e);
      var p := Kept(sets, q, e);
      if !(sets[last] <= e) {
        var r := p + [last];
        forall a, b | 0 <= a < b < |r| ensures r[a] < r[b] {
          if b == |p| {
            assert r[a] in q;
            var c :| 0 <= c < |q| && q[c] == r[a];
            assert ts[c] == r[a];
          } else {
            assert r[a] == p[a] && r[b] == p[b];
          }
        }
      }
    }
  }

  /** Dropping edges keeps the antichain. */
  lemma {:induction false} KeptAntichain(sets: seq<set<Value>>, ts: seq<nat>, e: set<Value>)
    requires forall a :: 0 <= a < |ts| ==> ts[a] < |sets|
    requires Antichain(sets, ts)
    ensures Antichain(sets, Kept(sets, ts, e))
    decreases |ts|
  {
    if ts != [] {
      var q := ts[..|ts| - 1];
      var last := ts[|ts| - 1];
      assert Antichain(sets, q) by {
        forall a, b | 0 <= a < |q| && 0 <= b < |q| && a != b ensures !(sets[q[a]] <= sets[q[b]]) {
          assert q[a] == ts[a] && q[b] == ts[b];
        }
      }
      KeptAntichain(sets, q, e);
      var p := Kept(sets, q, e);
      if !(sets[last] <= e) {
        var r := p + [last];
        forall a, b | 0 <= a < |r| && 0 <= b < |r| && a != b ensures !(sets[r[a]] <= sets[r[b]]) {
          if a == |p| {
            assert r[b] in q;
            var c :| 0 <= c < |q| && q[c] == r[b];
            assert ts[c] == r[b] && ts[|ts| - 1] == last && c != |ts| - 1;
          } else if b == |p| {
            assert r[a] in q;
            var c :| 0 <= c < |q| && q[c] == r[a];
            assert ts[c] == r[a] && ts[|ts| - 1] == last && c != |ts| - 1;
          } else {
            assert r[a] == p[a] && r[b] == p[b];
          }
        }
      }
    }
  }

  /** `list.remove(x)`: drops the first occurrence of x. */
  function RemoveFirst<T(==)>(s: seq<T>, x: T): (r: seq<T>)
    ensures x !in s ==> r == s
  {
    if s == [] then []
    else if s[0] == x then s[1..]
    else [s[0]] + RemoveFirst(s[1..], x)
  }

  lemma {:induction false} RemoveFirstAfter<T>(a: seq<T>, x: T, b: seq<T>)
    requires x !in a
    ensures RemoveFirst(a + [x] + b, x) == a + b
  {
    var c := a + [x] + b;
    if a != [] {
      assert c[0] == a[0] && a[0] != x;
      assert c[1..] == a[1..] + [x] + b;
      RemoveFirstAfter(a[1..], x, b);
      assert RemoveFirst(c, x) == [a[0]] + (a[1..] + b);
      assert a == [a[0]] + a[1..];
    } else {
      assert c == [x] + b;
    }
  }

  /** When no edge of `ts` lies inside e, nothing is dropped. */
  lemma {:induction false} KeptAll(sets: seq<set<Value>>, ts: seq<nat>, e: set<Value>)
    requires forall a :: 0 <= a < |ts| ==> ts[a] < |sets| && !(sets[ts[a]] <= e)
    ensures Kept(sets, ts, e) == ts
    decreases |ts|
  {
    if ts != [] {
      KeptAll(sets, ts[..|ts| - 1], e);
    }
  }

  /** One step of the inner loop: the next current toplex is kept or dropped. */
  lemma KeptStep(sets: seq<set<Value>>, ts: seq<nat>, k: nat, e: set<Value>)
    requires k < |ts| && forall a :: 0 <= a < |ts| ==> ts[a] < |sets|
    ensures Kept(sets, ts[..k + 1], e) == Kept(sets, ts[..k], e) + (if sets[ts[k]] <= e then [] else [ts[k]])
  {
    assert ts[..k + 1][..k] == ts[..k];
  }

  /** One pass of the inner loop past a toplex that does not hold the new
      edge: removing it when it lies inside the new edge keeps the shape
      "kept prefix, then the unvisited rest". */
  lemma InnerStep(sets: seq<set<Value>>, ts: seq<nat>, k: nat, e: set<Value>, tops: seq<nat>)
    requires k < |ts| && forall a :: 0 <= a < |ts| ==> ts[a] < |sets|
    requires Increasing(ts)
    requires tops == Kept(sets, ts[..k], e) + ts[k..]
    ensures (if sets[ts[k]] <= e then RemoveFirst(tops, ts[k]) else tops)
            == Kept(sets, ts[..k + 1], e) + ts[k + 1..]
  {
    KeptStep(sets, ts, k, e);
    var top := ts[k];
    var front := Kept(sets, ts[..k], e);
    var rest := ts[k + 1..];
    assert ts[k..] == [top] + rest;
    assert tops == front + [top] + rest;
    if sets[top] <= e {
      assert Kept(sets, ts[..k + 1], e) == front;
      assert top !in front;
      RemoveFirstAfter(front, top, rest);
    } else {
      assert Kept(sets, ts[..k + 1], e) == front + [top];
    }
  }

  /** An edge that no current toplex holds is kept, after dropping the
      toplexes inside it; the outer invariants hold again. */
  lemma KeepStep(sets: seq<set<Value>>, old_tops: seq<nat>, e: nat)
    requires e < |sets| && forall a :: 0 <= a < |old_tops| ==> old_tops[a] < e
    requires Increasing(old_tops) && Antichain(sets, old_tops)
    requires forall d :: 0 <= d < e ==> Covered(sets, old_tops, d)
    requires forall a :: 0 <= a < |old_tops| ==> !(sets[e] <= sets[old_tops[a]])
    ensures var next := Kept(sets, old_tops, sets[e]) + [e];
            (forall a :: 0 <= a < |next| ==> next[a] < e + 1)
            && Increasing(next) && Antichain(sets, next)
            && forall d :: 0 <= d < e + 1 ==> Covered(sets, next, d)
  {
    var kept := Kept(sets, old_tops, sets[e]);
    KeptIncreasing(sets, old_tops, sets[e]);
    KeptAntichain(sets, old_tops, sets[e]);
    AppendAntichain(sets, old_tops, e);
    AppendCovers(sets, old_tops, e);
    var next := kept + [e];
    forall a | 0 <= a < |next| ensures next[a] < e + 1 {
      if a < |kept| {
        assert next[a] == kept[a] && kept[a] in old_tops;
      }
    }
    forall a, b | 0 <= a < b < |next| ensures next[a] < next[b] {
      if b < |kept| {
        assert next[a] == kept[a] && next[b] == kept[b];
      } else {
        assert next[a] in old_tops;
      }
    }
  }

  /** An edge inside no current toplex joins the kept ones as an antichain. */
  lemma AppendAntichain(sets: seq<set<Value>>, old_tops: seq<nat>, e: nat)
    requires e < |sets| && forall a :: 0 <= a < |old_tops| ==> old_tops[a] < e
    requires Antichain(sets, Kept(sets, old_tops, sets[e]))
    requires forall a :: 0 <= a < |old_tops| ==> !(sets[e] <= sets[old_tops[a]])
    ensures Antichain(sets, Kept(sets, old_tops, sets[e]) + [e])
  {
    var kept := Kept(sets, old_tops, sets[e]);
    var next := kept + [e];
    forall a, b | 0 <= a < |next| && 0 <= b < |next| && a != b
      ensures !(sets[next[a]] <= sets[next[b]])
    {
      if b == |kept| {
        assert next[a] in kept;
      } else if a == |kept| {
        assert next[b] in old_tops;
        var c :| 0 <= c < |old_tops| && old_tops[c] == next[b];
      } else {
        assert next[a] == kept[a] && next[b] == kept[b];
      }
    }
  }

  /** Every edge covered before stays covered: a dropped toplex lies
      strictly inside the new edge. */
  lemma AppendCovers(sets: seq<set<Value>>, old_tops: seq<nat>, e: nat)
    requires e < |sets| && forall a :: 0 <= a < |old_tops| ==> old_tops[a] < e
    requires forall d :: 0 <= d < e ==> Covered(sets, old_tops, d)
    requires forall a :: 0 <= a < |old_tops| ==> !(sets[e] <= sets[old_tops[a]])
    ensures forall d :: 0 <= d < e + 1 ==> Covered(sets, Kept(sets, old_tops, sets[e]) + [e], d)
  {
    var kept := Kept(sets, old_tops, sets[e]);
    var next := kept + [e];
    assert next[|kept|] == e;
    forall d | 0 <= d < e + 1 ensures Covered(sets, next, d) {
      if d < e {
        assert Covered(sets, old_tops, d);
        var a :| 0 <= a < |old_tops| && sets[d] <= sets[old_tops[a]]
                 && (old_tops[a] <= d || !(sets[old_tops[a]] <= sets[d]));
        var x := old_tops[a];
        if x in kept {
          var b :| 0 <= b < |kept| && kept[b] == x;
          assert next[b] == x;
        } else {
          assert sets[x] <= sets[e] && !(sets[e] <= sets[x]);
          assert sets[d] <= sets[e] && !(sets[e] <= sets[d]);
        }
      }
    }
  }

  /** An edge inside a current toplex changes nothing: no earlier toplex
      was dropped, and the edge is covered by that toplex. */
  lemma BlockedStep(sets: seq<set<Value>>, old_tops: seq<nat>, e: nat, k: nat)
    requires e < |sets| && forall a :: 0 <= a < |old_tops| ==> old_tops[a] < e
    requires Antichain(sets, old_tops)
    requires k < |old_tops| && sets[e] <= sets[old_tops[k]]
    ensures Kept(sets, old_tops[..k], sets[e]) + old_tops[k..] == old_tops
    ensures Covered(sets, old_tops, e)
  {
    var front := old_tops[..k];
    forall a | 0 <= a < |front| ensures front[a] < |sets| && !(sets[front[a]] <= sets[e]) {
      assert front[a] == old_tops[a];
      assert !(sets[old_tops[a]] <= sets[old_tops[k]]);
    }
    KeptAll(sets, front, sets[e]);
    assert front + old_tops[k..] == old_tops;
    assert old_tops[k] <= e;
  }

  /** An antichain that covers every edge holds exactly the toplexes. */
  lemma CoveredCharacterises(sets: seq<set<Value>>, tops: seq<nat>, i: nat)
    requires i < |sets| && forall a :: 0 <= a < |tops| ==> tops[a] < |sets|
    requires Antichain(sets, tops)
    requires forall d :: 0 <= d < |sets| ==> Covered(sets, tops, d)
    ensures i in tops <==> IsToplex(sets, i)
  {
    if i in tops {
      var a :| 0 <= a < |tops| && tops[a] == i;
      forall d | 0 <= d < |sets| && sets[i] <= sets[d] ensures sets[d] <= sets[i] {
        assert Covered(sets, tops, d);
        var b :| 0 <= b < |tops| && sets[d] <= sets[tops[b]] && (tops[b] <= d || !(sets[tops[b]] <= sets[d]));
        assert sets[tops[a]] <= sets[tops[b]];
        assert a == b;
      }
      forall d | 0 <= d < i ensures !(sets[d] <= sets[i] && sets[i] <= sets[d]) {
        if sets[d] <= sets[i] && sets[i] <= sets[d] {
          assert Covered(sets, tops, d);
          var b :| 0 <= b < |tops| && sets[d] <= sets[tops[b]] && (tops[b] <= d || !(sets[tops[b]] <= sets[d]));
        }
      }
    } else if IsToplex(sets, i) {
      assert Covered(sets, tops, i);
      var b :| 0 <= b < |tops| && sets[i] <= sets[tops[b]] && (tops[b] <= i || !(sets[tops[b]] <= sets[i]));
    }
  }

  /** Node set e lies inside none of the first k toplexes of ts. */
  predicate Outside(sets: seq<set<Value>>, ts: seq<nat>, k: nat, e: set<Value>)
    requires k <= |ts| && forall a :: 0 <= a < |ts| ==> ts[a] < |sets|
  {
    forall a :: 0 <= a < k ==> !(e <= sets[ts[a]])
  }

  /** One step of the inner loop past a toplex that does not hold e: that
      toplex is dropped when it lies inside e. */
  method PassTop(sets: seq<set<Value>>, old_tops: seq<nat>, k: nat, e: set<Value>, tops: seq<nat>)
    returns (next: seq<nat>)
    requires k < |old_tops| && forall a :: 0 <= a < |old_tops| ==> old_tops[a] < |sets|
    requires Increasing(old_tops)
    requires tops == Kept(sets, old_tops[..k], e) + old_tops[k..]
    requires Outside(sets, old_tops, k, e) && !(e <= sets[old_tops[k]])
    ensures next == Kept(sets, old_tops[..k + 1], e) + old_tops[k + 1..]
    ensures Outside(sets, old_tops, k + 1, e)
  {
    var top := old_tops[k];
    InnerStep(sets, old_tops, k, e, tops);
    if sets[top] <= e {
      next := RemoveFirst(tops, top);
    } else {
      next := tops;
    }
  }

  /** The inner loop of `toplexes` for edge e: walks the current toplexes,
      stopping at the first that holds e and removing those inside e. With
      `flag` set, e is inside none of them and exactly the ones inside e are
      gone; otherwise nothing was removed and e is covered. */
  method SweepTops(sets: seq<set<Value>>, old_tops: seq<nat>, e: nat) returns (tops: seq<nat>, flag: bool)
    requires e < |sets| && forall a :: 0 <= a < |old_tops| ==> old_tops[a] < e
    requires Increasing(old_tops) && Antichain(sets, old_tops)
    ensures flag ==> tops == Kept(sets, old_tops, sets[e])
                     && forall a :: 0 <= a < |old_tops| ==> !(sets[e] <= sets[old_tops[a]])
    ensures !flag ==> tops == old_tops && Covered(sets, old_tops, e)
  {
    tops := old_tops;
    flag := true;
    var k := 0;
    while k < |old_tops| && flag
      decreases |old_tops| - k + (if flag then 1 else 0)
      invariant 0 <= k <= |old_tops|
      invariant tops == Kept(sets, old_tops[..k], sets[e]) + old_tops[k..]
      invariant flag ==> Outside(sets, old_tops, k, sets[e])
      invariant !flag ==> k < |old_tops| && sets[e] <= sets[old_tops[k]]
    {
      if sets[e] <= sets[old_tops[k]] {
        flag := false;
      } else {
        tops := PassTop(sets, old_tops, k, sets[e], tops);
        k := k + 1;
      }
    }
    SweepEnd(sets, old_tops, e, k, tops, flag);
  }

  /** What the inner loop's invariant gives once the loop stops. */
  lemma SweepEnd(sets: seq<set<Value>>, old_tops: seq<nat>, e: nat, k: nat, tops: seq<nat>, flag: bool)
    requires e < |sets| && forall a :: 0 <= a < |old_tops| ==> old_tops[a] < e
    requires Antichain(sets, old_tops)
    requires 0 <= k <= |old_tops| && !(k < |old_tops| && flag)
    requires tops == Kept(sets, old_tops[..k], sets[e]) + old_tops[k..]
    requires flag ==> Outside(sets, old_tops, k, sets[e])
    requires !flag ==> k < |old_tops| && sets[e] <= sets[old_tops[k]]
    ensures flag ==> tops == Kept(sets, old_tops, sets[e])
                     && forall a :: 0 <= a < |old_tops| ==> !(sets[e] <= sets[old_tops[a]])
    ensures !flag ==> tops == old_tops && Covered(sets, old_tops, e)
  {
    if flag {
      assert old_tops[..k] == old_tops && old_tops[k..] == [];
      assert Outside(sets, old_tops, |old_tops|, sets[e]);
    } else {
      BlockedStep(sets, old_tops, e, k);
    }
  }

  /** `toplexes`: the scan over the edges, each checked against the current
      toplexes. The result holds exactly the toplexes, in order; no kept node
      set lies inside another, and every edge lies inside a kept one. */
  method ToplexScan(sets: seq<set<Value>>) returns (tops: seq<nat>)
    ensures forall a :: 0 <= a < |tops| ==> tops[a] < |sets|
    ensures Increasing(tops)
    ensures Antichain(sets, tops)
    ensures forall d :: 0 <= d < |sets| ==> Covered(sets, tops, d)
    ensures forall i :: 0 <= i < |sets| ==> (i in tops <==> IsToplex(sets, i))
  {
    tops := [];
    var e := 0;
    while e < |sets|
      invariant 0 <= e <= |sets|
      invariant forall a :: 0 <= a < |tops| ==> tops[a] < e
      invariant Increasing(tops)
      invariant Antichain(sets, tops)
      invariant forall d :: 0 <= d < e ==> Covered(sets, tops, d)
    {
      var old_tops := tops;
      var flag;
      tops, flag := SweepTops(sets, old_tops, e);
      if flag {
        KeepStep(sets, old_tops, e);
        tops := tops + [e];
      } else {
        forall d | 0 <= d < e + 1 ensures Covered(sets, tops, d) {
          if d < e {
            assert Covered(sets, old_tops, d);
          }
        }
      }
      e := e + 1;
    }
    forall i | 0 <= i < |sets| ensures i in tops <==> IsToplex(sets, i) {
      CoveredCharacterises(sets, tops, i);
    }
  }
}
