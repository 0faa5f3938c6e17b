// The write-ahead journal as a value: the intents in the order in which they were first enqueued.
module IntentLog {
  import opened FileDomain

  datatype Status = Pending | Done | Aborted

  datatype Op = CreateFolder | CreateFile | WriteFile | CreateNotebook

  datatype Intent = Intent(id: string, op: Op, absPath: string, actor: NodeActor, nodeType: Option<NodeType>,
                           status: Status, attempts: nat)

  type Log = seq<Intent>

  ghost predicate UniqueIds(j: Log) {
    forall a, b :: 0 <= a < b < |j| ==> j[a].id != j[b].id
  }

  predicate HasId(j: Log, id: string) {
    exists k :: 0 <= k < |j| && j[k].id == id
  }

  // ---- The updates the store offers, all addressed by id ----

  function WithStatus(j: Log, id: string, st: Status): (r: Log)
    ensures |r| == |j|
    ensures forall k :: 0 <= k < |j| ==> r[k] == if j[k].id == id then j[k].(status := st) else j[k]
  {
    seq(|j|, k requires 0 <= k < |j| => if j[k].id == id then j[k].(status := st) else j[k])
  }

  function WithAttempt(j: Log, id: string): (r: Log)
    ensures |r| == |j|
    ensures forall k :: 0 <= k < |j| ==>
              r[k] == if j[k].id == id then j[k].(attempts := j[k].attempts + 1) else j[k]
  {
    seq(|j|, k requires 0 <= k < |j| => if j[k].id == id then j[k].(attempts := j[k].attempts + 1) else j[k])
  }

  function Enqueued(j: Log, it: Intent): (r: Log) {
    var pending := it.(status := Pending);
    if HasId(j, it.id)
    then seq(|j|, k requires 0 <= k < |j| => if j[k].id == it.id then pending else j[k])
    else j + [pending]
  }

  function Ids(j: Log): (r: seq<string>)
    ensures |r| == |j|
    ensures forall k :: 0 <= k < |j| ==> r[k] == j[k].id
  {
    seq(|j|, k requires 0 <= k < |j| => j[k].id)
  }

  lemma SameIdsUnique(j: Log, j': Log)
    requires UniqueIds(j) && Ids(j) == Ids(j')
    ensures UniqueIds(j')
  {
    forall a, b | 0 <= a < b < |j'| ensures j'[a].id != j'[b].id {
      assert j[a].id == Ids(j)[a] == j'[a].id && j[b].id == Ids(j)[b] == j'[b].id;
    }
  }

  // ---- Pending intents, oldest first ----

  function PendingOf(j: Log): Log {
    if j == [] then []
    else (if j[0].status.Pending? then [j[0]] else []) + PendingOf(j[1..])
  }

  function Take<T>(s: seq<T>, n: nat): (r: seq<T>)
    ensures |r| == if |s| <= n then |s| else n
  {
    if |s| <= n then s else s[..n]
  }

  lemma PendingSplit(a: Log, b: Log)
    ensures PendingOf(a + b) == PendingOf(a) + PendingOf(b)
  {
    if a == [] {
      assert a + b == b;
    } else {
      assert (a + b)[1..] == a[1..] + b;
      PendingSplit(a[1..], b);
    }
  }

  // Every pending intent is an entry of the journal, with its own id.
  lemma PendingMembers(j: Log)
    ensures forall x <- PendingOf(j) :: x in j && x.status.Pending?
    ensures forall x <- j :: x.status.Pending? ==> x in PendingOf(j)
    ensures UniqueIds(j) ==> UniqueIds(PendingOf(j))
    ensures |PendingOf(j)| <= |j|
  {
    if j != [] {
      PendingMembers(j[1..]);
      if UniqueIds(j) {
        var rest := PendingOf(j[1..]);
        forall k | 0 <= k < |rest| ensures rest[k].id != j[0].id {
          assert rest[k] in j[1..];
        }
      }
    }
  }

  // The place a pending entry takes in the pending list is the number of pending entries before it.
  lemma PendingAt(j: Log, i: nat)
    requires i < |j| && j[i].status.Pending?
    ensures |PendingOf(j[..i])| < |PendingOf(j)|
    ensures PendingOf(j)[|PendingOf(j[..i])|] == j[i]
  {
    assert j == j[..i] + j[i..];
    PendingSplit(j[..i], j[i..]);
  }

  // Resolving the oldest pending intent removes it, and nothing else, from the pending list.
  lemma ResolveOldest(j: Log, st: Status)
    requires UniqueIds(j) && PendingOf(j) != [] && !st.Pending?
    ensures PendingOf(WithStatus(j, PendingOf(j)[0].id, st)) == PendingOf(j)[1..]
    ensures UniqueIds(WithStatus(j, PendingOf(j)[0].id, st))
  {
    var id := PendingOf(j)[0].id;
    var r := WithStatus(j, id, st);
    if j[0].status.Pending? {
      assert r[1..] == j[1..];
    } else {
      ResolveOldest(j[1..], st);
      PendingMembers(j[1..]);
      assert PendingOf(j[1..])[0] in j[1..];
      assert r[1..] == WithStatus(j[1..], id, st);
      assert r[0] == j[0];
    }
  }

  lemma PositionOf(j: Log, x: Intent) returns (i: nat)
    requires x in j
    ensures i < |j| && j[i] == x
  {
    i :| 0 <= i < |j| && j[i] == x;
  }
}
