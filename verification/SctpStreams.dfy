/** The SCTP stream ids of a transport: a circular scan, and ids that are held across an await. */
module SctpStreams {
  import opened Wrappers

  datatype StreamError = MissingMis | NoStreamId

  /** The id that the scan looks at after d steps from the cursor. */
  function At(next: nat, d: nat, n: nat): (id: nat)
    requires n > 0
    ensures id < n
  {
    (next + d) % n
  }

  /** The first free id from step idx on, going around the ids once. */
  function NextFree(marks: seq<bool>, next: nat, idx: nat): Option<nat>
    requires idx <= |marks|
    decreases |marks| - idx
  {
    if idx == |marks| then None
    else if !marks[At(next, idx, |marks|)] then Some(At(next, idx, |marks|))
    else NextFree(marks, next, idx + 1)
  }

  lemma {:induction false} MultipleAtLeast(k: nat, n: nat)
    requires k >= 1
    ensures k * n >= n
  {
    if k > 1 {
      MultipleAtLeast(k - 1, n);
      assert k * n == (k - 1) * n + n;
    }
  }

  lemma ModOfSum(q: nat, x: nat, n: nat)
    requires x < n
    ensures (q * n + x) % n == x
  {
    var a := q * n + x;
    var p, r := a / n, a % n;
    assert a == p * n + r;
    if q > p {
      assert (q - p) * n == q * n - p * n;
      MultipleAtLeast(q - p, n);
    } else if p > q {
      assert (p - q) * n == p * n - q * n;
      MultipleAtLeast(p - q, n);
    }
  }

  /** The scan walks up from the cursor and wraps around once. */
  lemma AtForm(next: nat, d: nat, n: nat)
    requires d < n
    ensures At(next, d, n) == if next % n + d < n then next % n + d else next % n + d - n
  {
    var q, r := next / n, next % n;
    assert next == q * n + r;
    if r + d < n {
      ModOfSum(q, r + d, n);
    } else {
      assert next + d == (q + 1) * n + (r + d - n);
      ModOfSum(q + 1, r + d - n, n);
    }
  }

  /** The number of steps after which the scan looks at an id. */
  function Steps(next: nat, id: nat, n: nat): (d: nat)
    requires id < n
    ensures d < n
  {
    if id >= next % n then id - next % n else id + n - next % n
  }

  /** The scan looks at every id once. */
  lemma StepsReach(next: nat, id: nat, d: nat, n: nat)
    requires id < n && d < n
    ensures At(next, d, n) == id <==> d == Steps(next, id, n)
  {
    AtForm(next, d, n);
  }

  /** The scan fails exactly when every step meets a mark; otherwise it stops at the first step that does not. */
  lemma {:induction false} NextFreeScans(marks: seq<bool>, next: nat, idx: nat)
    requires idx <= |marks|
    ensures NextFree(marks, next, idx).None? <==> forall d :: idx <= d < |marks| ==> marks[At(next, d, |marks|)]
    ensures NextFree(marks, next, idx).Some? ==>
      exists e :: idx <= e < |marks| && NextFree(marks, next, idx).value == At(next, e, |marks|)
                  && !marks[At(next, e, |marks|)] && forall d :: idx <= d < e ==> marks[At(next, d, |marks|)]
    decreases |marks| - idx
  {
    hide At;
    if idx < |marks| {
      NextFreeScans(marks, next, idx + 1);
    }
  }

  /** The allocator fails exactly when every id is marked; otherwise it returns the free id nearest after the cursor. */
  lemma NextFreeFirst(marks: seq<bool>, next: nat)
    ensures NextFree(marks, next, 0).None? <==> forall id :: 0 <= id < |marks| ==> marks[id]
    ensures NextFree(marks, next, 0).Some? ==>
      var id := NextFree(marks, next, 0).value;
      id < |marks| && !marks[id] &&
      forall other :: 0 <= other < |marks| && Steps(next, other, |marks|) < Steps(next, id, |marks|) ==> marks[other]
  {
    hide At, Steps;
    NextFreeScans(marks, next, 0);
    var n := |marks|;
    if NextFree(marks, next, 0).None? {
      forall id | 0 <= id < n ensures marks[id] {
        StepsReach(next, id, Steps(next, id, n), n);
      }
    } else {
      var id := NextFree(marks, next, 0).value;
      var e :| 0 <= e < n && id == At(next, e, n) && !marks[id] && forall d :: 0 <= d < e ==> marks[At(next, d, n)];
      StepsReach(next, id, e, n);
      forall other | 0 <= other < n && Steps(next, other, n) < e ensures marks[other] {
        StepsReach(next, other, Steps(next, other, n), n);
      }
    }
  }

  ghost predicate Injective(m: map<nat, nat>) {
    forall a, b :: a in m && b in m && a != b ==> m[a] != m[b]
  }

  lemma {:induction false} InjectiveCount(m: map<nat, nat>)
    requires Injective(m)
    ensures |m.Values| == |m|
    decreases |m|
  {
    if m == map[] {
      assert m.Values == {};
    } else {
      var k :| k in m;
      var less := m - {k};
      assert less.Keys == m.Keys - {k};
      ValuesRemove(m, k);
      assert |less| == |less.Keys| && |m| == |m.Keys|;
      InjectiveCount(less);
    }
  }

  lemma ValuesAdd(m: map<nat, nat>, k: nat, v: nat)
    requires Injective(m) && k !in m && v !in m.Values
    ensures m[k := v].Values == m.Values + {v} && Injective(m[k := v])
  {
    var more := m[k := v];
    forall x ensures x in more.Values <==> x in m.Values + {v} {
      if x in m.Values {
        var j :| j in m && m[j] == x;
        assert more[j] == x;
      }
      if x == v {
        assert more[k] == x;
      }
    }
    forall a, b | a in more && b in more && a != b ensures more[a] != more[b] {
      if a != k && b != k {
        assert m[a] != m[b];
      } else {
        assert a == k || m[a] in m.Values;
        assert b == k || m[b] in m.Values;
      }
    }
  }

  lemma ValuesRemove(m: map<nat, nat>, k: nat)
    requires Injective(m) && k in m
    ensures (m - {k}).Values == m.Values - {m[k]} && Injective(m - {k}) && m[k] in m.Values
  {
    var less := m - {k};
    forall x ensures x in less.Values <==> x in m.Values - {m[k]} {
      if x in less.Values {
        var j :| j in less && less[j] == x;
        assert m[j] == x && m[j] != m[k];
      }
      if x in m.Values - {m[k]} {
        var j :| j in m && m[j] == x;
        assert less[j] == x;
      }
    }
  }

  ghost function Below(n: nat): (r: set<nat>)
    ensures forall i: nat :: i in r <==> i < n
    ensures |r| == n
  {
    if n == 0 then {} else Below(n - 1) + {n - 1}
  }

  /** Holders and ids are counted alike: the three groups fill the n ids exactly when their sizes add up to n. */
  lemma HoldersFill(pending: map<nat, nat>, live: map<nat, nat>, leaked: set<nat>, n: nat)
    requires Injective(pending) && Injective(live)
    requires pending.Values !! live.Values && leaked !! pending.Values + live.Values
    requires pending.Values + live.Values + leaked <= Below(n)
    ensures |pending| + |live| + |leaked| <= n
    ensures |pending| + |live| + |leaked| == n <==> pending.Values + live.Values + leaked == Below(n)
  {
    InjectiveCount(pending);
    InjectiveCount(live);
    var held := pending.Values + live.Values + leaked;
    assert |held| == |pending.Values| + |live.Values| + |leaked|;
    var free := Below(n) - held;
    assert |free| == |Below(n)| - |held| && held + free == Below(n);
    if |held| == n {
      assert |free| == 0;
    }
  }

  /** A transport with its data consumers, pending or live, and their stream ids. */
  class Transport {
    const mis: Option<nat>
    var ids: array?<int>           // allocated on first use
    var nextSctpStreamId: nat
    var requests: nat
    var pending: map<nat, nat>     // consumeData calls that wait for the worker
    var live: map<nat, nat>        // data consumers
    ghost var leaked: set<nat>     // ids of calls the worker rejected

    /** Every marked id has exactly one holder, and every holder's id is marked. */
    ghost predicate Valid()
      reads this, ids
    {
      && Injective(pending) && Injective(live)
      && pending.Values !! live.Values && leaked !! pending.Values + live.Values
      && (forall r <- pending :: r < requests) && (forall r <- live :: r < requests) && pending.Keys !! live.Keys
      && (if ids == null then Held() == {}
          else mis == Some(ids.Length) && forall i: nat :: i in Held() <==> i < ids.Length && ids[i] != 0)
    }

    ghost function Held(): set<nat>
      reads this
    {
      pending.Values + live.Values + leaked
    }

    ghost function Marks(): seq<bool>
      requires mis.Some? && (ids != null ==> ids.Length == mis.value)
      reads this, ids
    {
      if ids == null then seq(mis.value, _ => false)
      else
        var a := ids;
        seq(mis.value, i requires 0 <= i < a.Length reads a => a[i] != 0)
    }

    constructor (mis: Option<nat>)
      ensures Valid() && this.mis == mis && ids == null && nextSctpStreamId == 0
      ensures pending == map[] && live == map[] && leaked == {}
    {
      this.mis := mis;
      ids, nextSctpStreamId, requests, pending, live, leaked := null, 0, 0, map[], map[], {};
    }

    /** getNextSctpStreamId(): the first free id in cyclic order from the cursor. */
    method GetNextSctpStreamId() returns (r: Result<nat, StreamError>)
      requires Valid()
      modifies this`ids, this`nextSctpStreamId
      ensures Valid() && Held() == old(Held())
      ensures ids == old(ids) || (old(ids) == null && fresh(ids))
      ensures mis.None? ==> r == Err(MissingMis)
      ensures mis.Some? ==> ids != null && Marks() == old(Marks())
      ensures mis.Some? ==>
        (match NextFree(old(Marks()), old(nextSctpStreamId), 0)
         case None => r == Err(NoStreamId) && nextSctpStreamId == old(nextSctpStreamId)
         case Some(id) => r == Ok(id) && id < ids.Length && ids[id] == 0 && nextSctpStreamId == id + 1)
    {
      if mis.None? {
        return Err(MissingMis);
      }
      if ids == null {
        ids := new int[mis.value](_ => 0);
      }
      ghost var marks := old(Marks());
      assert Marks() == marks;
      var idx := 0;
      while idx < ids.Length
        invariant 0 <= idx <= ids.Length
        invariant NextFree(marks, nextSctpStreamId, 0) == NextFree(marks, nextSctpStreamId, idx)
      {
        var id := At(nextSctpStreamId, idx, ids.Length);
        assert marks[id] == (ids[id] != 0);
        if ids[id] == 0 {
          nextSctpStreamId := id + 1;
          return Ok(id);
        }
        idx := idx + 1;
      }
      return Err(NoStreamId);
    }

    /** consumeData() up to its await: the id is marked before the worker is asked. */
    method BeginConsumeData() returns (r: Result<nat, StreamError>)
      requires Valid()
      modifies this, ids
      ensures Valid() && live == old(live) && leaked == old(leaked) && (ids == old(ids) || fresh(ids))
      ensures r.Ok? ==> r.value == old(requests) && r.value !in old(pending)
                        && mis.Some? && NextFree(old(Marks()), old(nextSctpStreamId), 0).Some?
                        && pending == old(pending)[r.value := NextFree(old(Marks()), old(nextSctpStreamId), 0).value]
      ensures r.Err? ==> pending == old(pending)
      ensures r == Err(MissingMis) <==> mis.None?
      ensures r == Err(NoStreamId) <==> mis.Some? && |old(pending)| + |old(live)| + |old(leaked)| == mis.value
    {
      hide NextFree, Injective, Valid, Marks;
      if mis.Some? {
        FullIff();
      }
      var id := GetNextSctpStreamId();
      if id.Err? {
        return Err(id.error);
      }
      var request := Hold(id.value);
      return Ok(request);
    }

    /** Marks a free id for a new pending request. */
    method Hold(id: nat) returns (request: nat)
      requires Valid() && ids != null && id < ids.Length && ids[id] == 0
      modifies this`pending, this`requests, ids
      ensures Valid() && request == old(requests) && request !in old(pending)
      ensures pending == old(pending)[request := id]
    {
      hide Injective;
      Free(id);
      ValuesAdd(pending, requests, id);
      ids[id] := 1;
      request := requests;
      pending := pending[requests := id];
      requests := requests + 1;
      assert Held() == old(Held()) + {id};
    }

    /** An unmarked id has no holder. */
    lemma Free(id: nat)
      requires Valid() && ids != null && id < ids.Length && ids[id] == 0
      ensures id !in pending.Values && id !in live.Values && id !in leaked
    {
      assert id !in Held();
    }

    /** A held id is marked. */
    lemma Marked(id: nat)
      requires Valid() && (id in pending.Values || id in live.Values || id in leaked)
      ensures ids != null && id < ids.Length && ids[id] != 0
    {
      assert id in Held();
    }

    /** No id is left exactly when pending, live and leaked ids add up to the number of streams. */
    lemma FullIff()
      requires Valid() && mis.Some?
      ensures NextFree(Marks(), nextSctpStreamId, 0).None? <==> |pending| + |live| + |leaked| == mis.value
    {
      hide NextFree, Injective;
      var marks, n := Marks(), mis.value;
      NextFreeFirst(marks, nextSctpStreamId);
      forall id <- Held() ensures id in Below(n) {
        Marked(id);
      }
      HoldersFill(pending, live, leaked, n);
      if Held() == Below(n) {
        forall id | 0 <= id < n ensures marks[id] {
          assert id in Held();
        }
      }
      if forall id :: 0 <= id < n ==> marks[id] {
        forall id: nat | id < n ensures id in Held() {
          assert marks[id];
        }
        assert Held() == Below(n);
      }
    }

    /** The worker accepted: the data consumer takes over the id. */
    method Accept(request: nat)
      requires Valid() && request in pending
      modifies this`pending, this`live
      ensures Valid() && Held() == old(Held())
      ensures pending == old(pending) - {request} && live == old(live)[request := old(pending)[request]]
    {
      hide Injective;
      var id := pending[request];
      ValuesRemove(pending, request);
      ValuesAdd(live, request, id);
      pending := pending - {request};
      live := live[request := id];
      assert Held() == old(Held());
    }

    /** The worker rejected: consumeData throws and nobody unmarks the id. */
    method Reject(request: nat)
      requires Valid() && request in pending
      modifies this`pending, this`leaked
      ensures Valid() && Held() == old(Held())
      ensures pending == old(pending) - {request} && leaked == old(leaked) + {old(pending)[request]}
    {
      hide Injective;
      ValuesRemove(pending, request);
      leaked := leaked + {pending[request]};
      pending := pending - {request};
      assert Held() == old(Held());
    }

    /** close() of a data consumer, or the closure of its data producer: the first of the two unmarks the id. */
    method Release(consumer: nat)
      requires Valid()
      modifies this`live, ids
      ensures Valid() && Held() == old(Held()) - (if consumer in old(live) then {old(live)[consumer]} else {})
      ensures live == old(live) - {consumer} && pending == old(pending) && leaked == old(leaked)
    {
      if consumer !in live {
        assert live - {consumer} == live;
        return;
      }
      ValuesRemove(live, consumer);
      Marked(live[consumer]);
      ids[live[consumer]] := 0;
      live := live - {consumer};
    }

    /** Data consumers hold pairwise distinct marked ids below the number of streams. */
    lemma LiveIdsDistinct(a: nat, b: nat)
      requires Valid() && a in live && b in live
      ensures mis.Some? && ids != null && live[a] < mis.value && ids[live[a]] != 0
      ensures live[a] == live[b] <==> a == b
    {
      assert live[a] in live.Values;
      Marked(live[a]);
    }
  }

  /** One more request that the worker rejects. */
  method RejectOne(t: Transport)
    requires t.Valid() && t.mis.Some? && t.live == map[] && t.pending == map[] && |t.leaked| < t.mis.value
    modifies t, t.ids
    ensures t.Valid() && t.live == map[] && t.pending == map[] && |t.leaked| == |old(t.leaked)| + 1
    ensures t.ids == old(t.ids) || fresh(t.ids)
  {
    hide NextFree, Transport.Marks, Injective;
    var request := t.BeginConsumeData();
    assert request.Ok? || request.error == MissingMis || request.error == NoStreamId;
    assert request != Err(MissingMis) && request != Err(NoStreamId);
    assert t.pending[request.value] in t.pending.Values;
    t.Reject(request.value);
    assert t.pending == map[];
  }

  /** A worker that rejects every request uses up all stream ids, with no data consumer in existence. */
  method RejectAll(mis: nat) returns (t: Transport, r: Result<nat, StreamError>)
    ensures fresh(t) && t.Valid() && t.mis == Some(mis) && t.live == map[] && t.pending == map[]
    ensures r == Err(NoStreamId)
  {
    hide Transport.Valid, NextFree, Transport.Marks;
    t := new Transport(Some(mis));
    for i := 0 to mis
      invariant fresh(t) && t.Valid() && t.mis == Some(mis) && (t.ids != null ==> fresh(t.ids))
      invariant t.live == map[] && t.pending == map[] && |t.leaked| == i
    {
      RejectOne(t);
    }
    r := t.BeginConsumeData();
  }

  /** Where the scan goes, in plain numbers: upwards from the cursor, and from 0 once it has passed the last id. */
  lemma ScanGoesUp(marks: seq<bool>, next: nat, id: nat)
    requires next < |marks| && NextFree(marks, next, 0) == Some(id)
    ensures id < |marks| && !marks[id]
    ensures next <= id ==> forall other :: next <= other < id ==> marks[other]
    ensures id < next ==> forall other :: next <= other < |marks| || 0 <= other < id ==> marks[other]
  {
    var n := |marks|;
    NextFreeFirst(marks, next);
    assert next == 0 * n + next;
    ModOfSum(0, next, n);
    forall other | 0 <= other < n && if next <= id then next <= other < id else next <= other || other < id
      ensures marks[other]
    {
      assert Steps(next, other, n) < Steps(next, id, n);
    }
  }
}
