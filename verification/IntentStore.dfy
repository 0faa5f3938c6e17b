// The in-memory intent store: a sequence counter, an order table and the intents by id, proved
// against the journal value of module IntentLog.
module IntentStore {
  import opened IntentLog

  // ids lists the stored ids by sequence number: the k-th (from 0) was enqueued k + 1-st.
  ghost predicate Represents(ids: seq<string>, order: map<string, nat>, intents: map<string, Intent>) {
    && order.Keys == intents.Keys
    && (forall k :: 0 <= k < |ids| ==> ids[k] in order && order[ids[k]] == k + 1)
    && (forall id :: id in order ==> id in ids)
    && (forall id :: id in intents ==> intents[id].id == id)
  }

  ghost function Entries(ids: seq<string>, intents: map<string, Intent>): (j: Log)
    requires forall k :: 0 <= k < |ids| ==> ids[k] in intents
    ensures |j| == |ids|
    ensures forall k :: 0 <= k < |j| ==> j[k] == intents[ids[k]]
  {
    seq(|ids|, k requires 0 <= k < |ids| => intents[ids[k]])
  }

  // A stored id is the id of exactly one journal entry, at the place its sequence number gives.
  lemma EntryOf(ids: seq<string>, order: map<string, nat>, intents: map<string, Intent>, id: string)
    requires Represents(ids, order, intents)
    ensures id in intents <==> HasId(Entries(ids, intents), id)
    ensures id in intents ==> intents[id] in Entries(ids, intents)
    ensures UniqueIds(Entries(ids, intents))
  {
    if id in intents {
      var j := Entries(ids, intents);
      var k :| 0 <= k < |ids| && ids[k] == id;
      assert j[k] == intents[id];
    }
  }

  // Storing a new version of a known intent changes its own entry only.
  lemma ReplaceEntry(ids: seq<string>, order: map<string, nat>, intents: map<string, Intent>, e: Intent)
    requires Represents(ids, order, intents) && e.id in intents
    ensures Represents(ids, order, intents[e.id := e])
    ensures var j, j' := Entries(ids, intents), Entries(ids, intents[e.id := e]);
            forall k :: 0 <= k < |j| ==> j'[k] == if j[k].id == e.id then e else j[k]
    ensures var j := Entries(ids, intents);
            forall k :: 0 <= k < |j| && j[k].id == e.id ==> j[k] == intents[e.id]
  {
  }

  lemma StatusEntry(ids: seq<string>, order: map<string, nat>, intents: map<string, Intent>, id: string, st: Status)
    requires Represents(ids, order, intents)
    ensures id !in intents ==> WithStatus(Entries(ids, intents), id, st) == Entries(ids, intents)
    ensures id in intents ==> var e := intents[id].(status := st);
              && Represents(ids, order, intents[id := e])
              && Entries(ids, intents[id := e]) == WithStatus(Entries(ids, intents), id, st)
  {
    if id in intents {
      ReplaceEntry(ids, order, intents, intents[id].(status := st));
    }
  }

  lemma AttemptEntry(ids: seq<string>, order: map<string, nat>, intents: map<string, Intent>, id: string)
    requires Represents(ids, order, intents)
    ensures id !in intents ==> WithAttempt(Entries(ids, intents), id) == Entries(ids, intents)
    ensures id in intents ==> var e := intents[id].(attempts := intents[id].attempts + 1);
              && Represents(ids, order, intents[id := e])
              && Entries(ids, intents[id := e]) == WithAttempt(Entries(ids, intents), id)
  {
    if id in intents {
      ReplaceEntry(ids, order, intents, intents[id].(attempts := intents[id].attempts + 1));
    }
  }

  lemma AppendEntry(ids: seq<string>, order: map<string, nat>, intents: map<string, Intent>, e: Intent)
    requires Represents(ids, order, intents) && e.id !in intents
    ensures Represents(ids + [e.id], order[e.id := |ids| + 1], intents[e.id := e])
    ensures Entries(ids + [e.id], intents[e.id := e]) == Entries(ids, intents) + [e]
  {
  }

  lemma EnqueueEntry(ids: seq<string>, order: map<string, nat>, intents: map<string, Intent>, intent: Intent)
    requires Represents(ids, order, intents)
    ensures var e := intent.(status := Pending);
            if e.id in intents
            then && Represents(ids, order, intents[e.id := e])
                 && Entries(ids, intents[e.id := e]) == Enqueued(Entries(ids, intents), intent)
            else && Represents(ids + [e.id], order[e.id := |ids| + 1], intents[e.id := e])
                 && Entries(ids + [e.id], intents[e.id := e]) == Enqueued(Entries(ids, intents), intent)
  {
    EntryOf(ids, order, intents, intent.id);
    if intent.id in intents {
      ReplaceEntry(ids, order, intents, intent.(status := Pending));
    } else {
      AppendEntry(ids, order, intents, intent.(status := Pending));
    }
  }

  // ---- Sorting by sequence number ----

  ghost predicate Ordered(order: map<string, nat>, s: Log) {
    && (forall k :: 0 <= k < |s| ==> s[k].id in order)
    && (forall a, b :: 0 <= a < b < |s| ==> order[s[a].id] < order[s[b].id])
  }

  method SortByOrder(order: map<string, nat>, s: Log) returns (r: Log)
    requires forall k :: 0 <= k < |s| ==> s[k].id in order
    requires forall a, b :: 0 <= a < b < |s| ==> order[s[a].id] != order[s[b].id]
    ensures Ordered(order, r)
    ensures forall x :: x in r <==> x in s
  {
    r := [];
    for i := 0 to |s|
      invariant Ordered(order, r)
      invariant forall x :: x in r <==> x in s[..i]
    {
      var x := s[i];
      forall k | 0 <= k < |r| ensures order[r[k].id] != order[x.id] {
        assert r[k] in s[..i];
      }
      var k := 0;
      while k < |r| && order[r[k].id] < order[x.id]
        invariant k <= |r|
        invariant forall b :: 0 <= b < k ==> order[r[b].id] < order[x.id]
      {
        k := k + 1;
      }
      InsertOrdered(order, r, k, x);
      r := r[..k] + [x] + r[k..];
      assert s[..i + 1] == s[..i] + [x];
    }
    assert s[..|s|] == s;
  }

  lemma InsertOrdered(order: map<string, nat>, r: Log, k: nat, x: Intent)
    requires Ordered(order, r) && k <= |r| && x.id in order
    requires forall b :: 0 <= b < k ==> order[r[b].id] < order[x.id]
    requires k < |r| ==> order[x.id] < order[r[k].id]
    ensures Ordered(order, r[..k] + [x] + r[k..])
    ensures forall y :: y in r[..k] + [x] + r[k..] <==> y in r || y == x
  {
    assert r == r[..k] + r[k..];
  }

  lemma SameEmptiness(a: Log, b: Log)
    requires forall x :: x in a <==> x in b
    ensures a == [] <==> b == []
  {
    if a != [] {
      assert a[0] in b;
    }
    if b != [] {
      assert b[0] in a;
    }
  }

  // A list in strict order is determined by its elements.
  lemma OrderedUnique(order: map<string, nat>, a: Log, b: Log)
    requires Ordered(order, a) && Ordered(order, b)
    requires forall x :: x in a <==> x in b
    ensures a == b
  {
    SameEmptiness(a, b);
    if a != [] {
      assert a[0] in b && b[0] in a;
      assert a[0] == b[0];
      forall x | x in a[1..] ensures x in b[1..] { assert x in b && x != b[0]; }
      forall x | x in b[1..] ensures x in a[1..] { assert x in a && x != a[0]; }
      OrderedUnique(order, a[1..], b[1..]);
    }
  }

  lemma OrderedCons(order: map<string, nat>, x: Intent, rest: Log)
    requires Ordered(order, rest) && x.id in order
    requires forall y <- rest :: order[x.id] < order[y.id]
    ensures Ordered(order, [x] + rest)
  {
    var s := [x] + rest;
    forall a, b | 0 <= a < b < |s| ensures order[s[a].id] < order[s[b].id] {
      assert s[b] == rest[b - 1];
      assert rest[b - 1] in rest;
    }
  }

  lemma {:induction false} PendingOrdered(order: map<string, nat>, j: Log)
    requires Ordered(order, j)
    ensures Ordered(order, PendingOf(j))
  {
    if j != [] {
      var rest := j[1..];
      PendingOrdered(order, rest);
      PendingMembers(rest);
      assert PendingOf(j) == if j[0].status.Pending? then [j[0]] + PendingOf(rest) else PendingOf(rest);
      if j[0].status.Pending? {
        forall y <- PendingOf(rest) ensures order[j[0].id] < order[y.id] {
          assert y in rest;
        }
        OrderedCons(order, j[0], PendingOf(rest));
      }
    }
  }

  // ---- The store ----

  class FileIntentStore {
    var seqNo: nat
    var order: map<string, nat>
    var intents: map<string, Intent>
    // When set, Enqueue reports a failed durable write.
    var enqueueErr: bool
    ghost var ids: seq<string>

    // The journal this store represents.
    ghost var Contents: Log

    ghost predicate Valid()
      reads this
    {
      |ids| == seqNo && Represents(ids, order, intents) && Contents == Entries(ids, intents)
    }

    constructor ()
      ensures Valid() && Contents == [] && !enqueueErr
    {
      seqNo := 0;
      order := map[];
      intents := map[];
      enqueueErr := false;
      ids := [];
      Contents := [];
    }

    method Enqueue(intent: Intent) returns (ok: bool)
      requires Valid()
      modifies this`seqNo, this`order, this`intents, this`ids, this`Contents
      ensures Valid()
      ensures ok == !enqueueErr
      ensures Contents == if ok then Enqueued(old(Contents), intent) else old(Contents)
    {
      if enqueueErr {
        return false;
      }
      EnqueueEntry(ids, order, intents, intent);
      var entry := intent.(status := Pending);
      var entries := intents[entry.id := entry];
      if entry.id in intents {
        intents := entries;
      } else {
        ids := ids + [entry.id];
        seqNo, order, intents := seqNo + 1, order[entry.id := seqNo + 1], entries;
      }
      Contents := Enqueued(Contents, intent);
      return true;
    }

    method MarkDone(id: string)
      requires Valid()
      modifies this`intents, this`Contents
      ensures Valid() && Contents == WithStatus(old(Contents), id, Done)
    {
      StatusEntry(ids, order, intents, id, Done);
      if id in intents {
        intents := intents[id := intents[id].(status := Done)];
      }
      Contents := WithStatus(Contents, id, Done);
    }

    method MarkAborted(id: string)
      requires Valid()
      modifies this`intents, this`Contents
      ensures Valid() && Contents == WithStatus(old(Contents), id, Aborted)
    {
      StatusEntry(ids, order, intents, id, Aborted);
      if id in intents {
        intents := intents[id := intents[id].(status := Aborted)];
      }
      Contents := WithStatus(Contents, id, Aborted);
    }

    method IncrementAttempt(id: string)
      requires Valid()
      modifies this`intents, this`Contents
      ensures Valid() && Contents == WithAttempt(old(Contents), id)
    {
      AttemptEntry(ids, order, intents, id);
      if id in intents {
        intents := intents[id := intents[id].(attempts := intents[id].attempts + 1)];
      }
      Contents := WithAttempt(Contents, id);
    }

    // Up to limit pending intents, oldest first; every pending one when limit is not positive.
    method ListPending(limit: int) returns (pending: Log)
      requires Valid()
      ensures pending == if limit > 0 then Take(PendingOf(Contents), limit) else PendingOf(Contents)
    {
      var found := CollectPending();
      ghost var j := Contents;
      assert forall x :: x in found <==> x in PendingOf(j) by {
        PendingMembers(j);
        forall x ensures x in found <==> x in PendingOf(j) {
          EntryOf(ids, order, intents, x.id);
        }
      }
      pending := SortByOrder(order, found);
      PendingOrdered(order, j);
      OrderedUnique(order, pending, PendingOf(j));
      if limit > 0 && |pending| > limit {
        pending := pending[..limit];
      }
    }

    // The pending intents in the unspecified order of the map.
    method CollectPending() returns (found: Log)
      requires Valid()
      ensures forall x :: x in found <==> x.id in intents && x == intents[x.id] && x.status.Pending?
      ensures forall k :: 0 <= k < |found| ==> found[k].id in order
      ensures forall a, b :: 0 <= a < b < |found| ==> order[found[a].id] != order[found[b].id]
    {
      found := [];
      var rest := intents.Keys;
      while rest != {}
        invariant rest <= intents.Keys
        invariant forall x :: x in found <==>
                    x.id in intents && x.id !in rest && x == intents[x.id] && x.status.Pending?
        invariant UniqueIds(found)
      {
        var id :| id in rest;
        rest := rest - {id};
        if intents[id].status.Pending? {
          forall k | 0 <= k < |found| ensures found[k].id != id { assert found[k] in found; }
          found := found + [intents[id]];
        }
      }
      forall k | 0 <= k < |found| ensures found[k].id in order { assert found[k] in found; }
    }
  }
}
