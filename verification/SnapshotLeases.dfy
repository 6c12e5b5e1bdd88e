/** The snapshot lease store: leases with private copies of a member, readers that point at them, a
    resident quota, and best-effort zeroing when a lease is retired. */
module SnapshotLeases {
  import opened Utf8
  import opened SourceSnapshot

  type Capability = string
  /** The bytes of a snapshot are valid UTF-8. */
  type Text = s: Bytes | IsUtf8(s) witness []
  type Epoch = Bytes

  /** A decoded cursor: the base64 text of a capability and an epoch, or text that is not one. */
  datatype Cursor = Sealed(capability: Capability, epoch: Epoch) | Malformed

  datatype Option<T> = None | Some(value: T)

  datatype Failure = InvalidCursor | ExpiredLease | CapacityExceeded | EntropyUnavailable

  datatype Issued = Issued(cursor: Cursor) | NotIssued(failure: Failure)

  class Lease {
    const capability: Capability
    const selection: string
    const policy: string
    const size: nat
    var data: Bytes
    var expiresAt: int
    var refCount: int
    var hidden: bool
    /** The bytes the lease was acquired with, the readers that are open on it, and how often it was retired. */
    ghost const original: Text
    ghost var holders: set<LeaseReader>
    ghost var retirements: nat

    constructor (capability: Capability, selection: string, policy: string, content: Text, expiresAt: int)
      ensures Intact() && holders == {} && !hidden && size == |content|
      ensures this.capability == capability && this.selection == selection && this.policy == policy
      ensures original == content && this.expiresAt == expiresAt
    {
      this.capability, this.selection, this.policy := capability, selection, policy;
      this.size, this.data, this.original := |content|, content, content;
      this.expiresAt, this.refCount, this.hidden := expiresAt, 0, false;
      this.holders, this.retirements := {}, 0;
    }

    /** A lease that is still in the store: never zeroed, counted right, and held by someone if hidden. */
    ghost predicate Intact()
      reads this
    {
      && retirements == 0 && data == original && size == |original|
      && refCount == |holders| && (hidden ==> holders != {})
    }

    method CountIn(reader: LeaseReader)
      requires Intact() && !hidden && reader !in holders
      modifies this`refCount, this`holders
      ensures Intact() && holders == old(holders) + {reader}
    {
      refCount := refCount + 1;
      holders := holders + {reader};
    }

    /** A lease that has left the store: retired once, and zeroed. */
    ghost predicate Gone()
      reads this`data, this`retirements
    {
      retirements == 1 && data == seq(size, i => 0)
    }
  }

  /** The lease outlives the reader: it is a pointer, not a lookup. */
  class LeaseReader {
    const lease: Lease
    var closed: bool

    constructor (lease: Lease)
      ensures this.lease == lease && !closed
    {
      this.lease, this.closed := lease, false;
    }
  }

  type Leases = map<Capability, Lease>

  ghost function Total(m: Leases): nat
    decreases |m|
  {
    if m == map[] then 0 else var c :| c in m; m[c].size + Total(m - {c})
  }

  lemma {:induction false} TotalWithout(m: Leases, c: Capability)
    requires c in m
    ensures Total(m) == m[c].size + Total(m - {c})
    decreases |m|
  {
    var d :| d in m && Total(m) == m[d].size + Total(m - {d});
    if d != c {
      TotalWithout(m - {d}, c);
      TotalWithout(m - {c}, d);
      assert m - {d} - {c} == m - {c} - {d};
    }
  }

  lemma TotalWith(m: Leases, c: Capability, l: Lease)
    requires c !in m
    ensures Total(m[c := l]) == Total(m) + l.size
  {
    assert m[c := l] - {c} == m;
    TotalWithout(m[c := l], c);
  }

  class LeaseStore {
    const capacity: int
    const ttl: int
    var epoch: Epoch
    var resident: int
    var leases: Leases
    /** Every lease that was ever stored, and every reader that was ever opened. */
    ghost var pool: set<Lease>
    ghost var readers: set<LeaseReader>

    constructor (epoch: Epoch, capacity: int, ttl: int)
      requires capacity >= 0
      ensures Valid() && leases == map[] && pool == {} && readers == {}
      ensures this.epoch == epoch && this.capacity == capacity && this.ttl == ttl
    {
      this.epoch, this.capacity, this.ttl, this.resident, this.leases := epoch, capacity, ttl, 0, map[];
      this.pool, this.readers := {}, {};
    }

    /** resident is the sum of the sizes of the stored leases, within the quota; every stored lease is
        intact and filed under its own capability, and every other lease was retired once. */
    ghost predicate Filed()
      reads this`resident, this`leases, this`pool, pool
    {
      && resident == Total(leases) <= capacity
      && (forall c | c in leases :: leases[c] in pool && leases[c].capability == c && leases[c].Intact())
      && (forall l | l in pool && !Stores(l) :: l.Gone())
    }

    /** Filed, but for a lease nobody reads that is about to leave. */
    ghost predicate FiledBut(l: Lease)
      reads this`resident, this`leases, this`pool, pool
    {
      && resident == Total(leases) <= capacity && Stores(l) && l in pool && l.holders == {}
      && (forall c | c in leases :: leases[c] in pool && leases[c].capability == c
           && (leases[c] != l ==> leases[c].Intact()))
      && (forall m | m in pool && !Stores(m) :: m.Gone())
    }

    /** The holders of a stored lease are its unclosed readers, and the lease of an unclosed reader is stored. */
    ghost predicate Counted()
      reads this`leases, this`pool, this`readers, pool, readers
    {
      CountedIn(readers)
    }

    ghost predicate CountedIn(all: set<LeaseReader>)
      reads this`leases, this`pool, pool, all
    {
      && (forall q | q in all :: q.lease in pool)
      && (forall q | q in all && !q.closed :: Stores(q.lease) && q in q.lease.holders)
      && (forall l, h | l in pool && Stores(l) && h in l.holders :: h in all && h.lease == l && !h.closed)
    }

    ghost predicate Valid()
      reads this, pool, readers
    {
      Filed() && Counted()
    }

    ghost predicate Stores(l: Lease)
      reads this`leases
    {
      l.capability in leases && leases[l.capability] == l
    }

    /** What every operation does to readers: none but those in `gone` is closed. */
    twostate predicate KeepsReaders(gone: set<LeaseReader>)
      reads this, readers
    {
      && old(pool) <= pool && old(readers) <= readers
      && forall q | q in old(readers) && q !in gone :: q.closed == old(q.closed)
    }

    ghost function Unclosed(l: Lease): set<LeaseReader>
      reads this, readers
    {
      set q | q in readers && q.lease == l && !q.closed
    }

    /** In every reachable state: the quota is the sum of the stored sizes, the count of a lease is the number of its
        unclosed readers, no lease is retired twice, and none while a reader of it is unclosed. */
    lemma Accounts()
      requires Valid()
      ensures 0 <= resident == Total(leases) <= capacity
      ensures forall c | c in leases :: leases[c].refCount == |Unclosed(leases[c])|
      ensures forall l | l in pool ::
        l.retirements <= 1 && (Unclosed(l) != {} ==> l.retirements == 0 && l.data == l.original)
    {
      forall c | c in leases
        ensures leases[c].holders == Unclosed(leases[c])
      {}
      forall l | l in pool && Unclosed(l) != {}
        ensures Stores(l)
      {
        var q :| q in Unclosed(l);
      }
    }

    method Acquire(content: Text, selection: string, policy: string, now: int, entropy: Option<Capability>)
      returns (r: Issued)
      requires Valid()
      requires entropy.Some? ==> entropy.value !in leases
      modifies this`leases, this`resident, this`pool
      ensures Valid() && fresh(pool - old(pool)) && KeepsReaders({})
      ensures r == if old(resident) + |content| > capacity then NotIssued(CapacityExceeded)
                   else if entropy.None? then NotIssued(EntropyUnavailable)
                   else Issued(Sealed(entropy.value, epoch))
      ensures r.NotIssued? ==> leases == old(leases)
      ensures r.Issued? ==>
        && entropy.value in leases
        && var l := leases[entropy.value];
        && leases == old(leases)[entropy.value := l] && fresh(l)
        && l.original == content && l.selection == selection && l.policy == policy
        && l.expiresAt == now + ttl && !l.hidden
    {
      hide Total;
      if resident + |content| > capacity { return NotIssued(CapacityExceeded); }
      if entropy.None? { return NotIssued(EntropyUnavailable); }
      var l := new Lease(entropy.value, selection, policy, content, now + ttl);
      Store(l);
      r := Issued(Sealed(entropy.value, epoch));
    }

    /** Files a new lease and charges the quota. */
    method Store(l: Lease)
      requires Valid() && l !in pool && l.capability !in leases
      requires l.Intact() && l.holders == {} && resident + l.size <= capacity
      modifies this`leases, this`resident, this`pool
      ensures Valid() && leases == old(leases)[l.capability := l] && pool == old(pool) + {l}
    {
      hide Total, Lease.Gone, Lease.Intact;
      TotalWith(leases, l.capability, l);
      leases := leases[l.capability := l];
      pool := pool + {l};
      resident := resident + l.size;
    }

    /** Why a cursor is refused for a lookup, in the order of the checks. */
    ghost function Refusal(cursor: Cursor, now: int): Option<Failure>
      requires Valid()
      reads this, pool, readers
    {
      if cursor.Malformed? || cursor.epoch != epoch then Some(InvalidCursor)
      else if cursor.capability !in leases || leases[cursor.capability].hidden then Some(InvalidCursor)
      else if now >= leases[cursor.capability].expiresAt then Some(ExpiredLease)
      else None
    }

    method OpenReader(cursor: Cursor, selection: string, policy: string, now: int)
      returns (r: Option<LeaseReader>, failure: Option<Failure>)
      requires Valid()
      modifies this`readers, pool
      ensures Valid() && KeepsReaders({}) && readers == old(readers) + (if r.Some? then {r.value} else {})
      ensures r.None? <==> failure.Some?
      ensures r.Some? <==>
        && old(Refusal(cursor, now)).None?
        && leases[cursor.capability].selection == selection && leases[cursor.capability].policy == policy
      ensures failure == Some(ExpiredLease) <==>
        && old(Refusal(cursor, now)) == Some(ExpiredLease)
        && leases[cursor.capability].selection == selection && leases[cursor.capability].policy == policy
      ensures r.None? ==> failure.value.ExpiredLease? || failure.value.InvalidCursor?
      ensures r.None? ==> forall l | l in pool :: unchanged(l)
      ensures r.Some? ==>
        && var l := leases[cursor.capability];
        && fresh(r.value) && r.value.lease == l && l in pool && !r.value.closed
        && l.holders == old(l.holders) + {r.value} && l.expiresAt == now + ttl && !l.hidden
        && forall m | m in pool && m != l :: unchanged(m)
    {
      if cursor.Malformed? || cursor.epoch != epoch || cursor.capability !in leases {
        return None, Some(InvalidCursor);
      }
      var l := leases[cursor.capability];
      if l.hidden || l.selection != selection || l.policy != policy { return None, Some(InvalidCursor); }
      if now >= l.expiresAt { return None, Some(ExpiredLease); }
      var reader := Grant(l, now);
      return Some(reader), None;
    }

    /** Refreshes a visible lease and counts a new reader. */
    method Grant(l: Lease, now: int) returns (reader: LeaseReader)
      requires Valid() && Stores(l) && !l.hidden
      modifies this`readers, l`expiresAt, l`refCount, l`holders
      ensures Valid() && KeepsReaders({}) && readers == old(readers) + {reader}
      ensures fresh(reader) && reader.lease == l && !reader.closed
      ensures l.holders == old(l.holders) + {reader} && l.expiresAt == now + ttl
    {
      hide Valid;
      reader := new LeaseReader(l);
      Touch(l, now);
      Hold(l, reader);
    }

    /** Moves the idle deadline. */
    method Touch(l: Lease, now: int)
      requires Valid()
      modifies l`expiresAt
      ensures Valid() && l.expiresAt == now + ttl
    {
      hide Total;
      l.expiresAt := now + ttl;
    }

    method Hold(l: Lease, reader: LeaseReader)
      requires Valid() && Stores(l) && !l.hidden && reader !in readers && reader.lease == l && !reader.closed
      modifies this`readers, l`refCount, l`holders
      ensures Valid() && readers == old(readers) + {reader} && l.holders == old(l.holders) + {reader}
    {
      hide Filed, CountedIn;
      CountHolder(l, reader);
      readers := readers + {reader};
    }

    lemma LeaseFiled(l: Lease)
      requires Filed() && Stores(l)
      ensures l in pool && l.Intact()
    {
    }

    /** The lease alone. */
    method CountHolder(l: Lease, reader: LeaseReader)
      requires Valid() && Stores(l) && !l.hidden && reader !in readers && reader.lease == l && !reader.closed
      modifies l`refCount, l`holders
      ensures Filed() && CountedIn(readers + {reader}) && l.holders == old(l.holders) + {reader}
    {
      hide Total, Lease.Gone, Lease.Intact;
      LeaseFiled(l);
      assert reader !in l.holders;
      l.CountIn(reader);
    }

    /** The selection bound to a cursor; nothing is refreshed. */
    method Lookup(cursor: Cursor, now: int) returns (selection: Option<string>, failure: Option<Failure>)
      requires Valid()
      ensures failure == Refusal(cursor, now)
      ensures selection == if failure.None? then Some(leases[cursor.capability].selection) else None
    {
      if cursor.Malformed? || cursor.epoch != epoch || cursor.capability !in leases {
        return None, Some(InvalidCursor);
      }
      var l := leases[cursor.capability];
      if l.hidden { return None, Some(InvalidCursor); }
      if now >= l.expiresAt { return None, Some(ExpiredLease); }
      return Some(l.selection), None;
    }

    /** A page through an open reader is the page of the bytes the lease was acquired with, whatever was
        evicted or restarted in between. */
    method Page(r: LeaseReader, size: SourceSnapshot.Page -> nat, startLine: int, maxLines: int, now: int)
      returns (page: Option<PageResult>)
      requires Valid() && r in readers
      modifies r.lease`expiresAt
      ensures Valid() && KeepsReaders({})
      ensures page == if r.closed then None else Some(PageOf(Records(r.lease.original), size, startLine, maxLines))
      ensures r.lease.expiresAt == if r.closed then old(r.lease.expiresAt) else now + ttl
    {
      if r.closed { return None; }
      Touch(r.lease, now);
      var encoded := NewSnapshot(r.lease.data);
      var served := PageAt(encoded.snapshot, size, startLine, maxLines);
      page := Some(served);
    }

    /** retireLocked: unmaps a lease nobody reads, frees its quota and zeroes its bytes. */
    method Retire(l: Lease)
      requires FiledBut(l) && Counted() && l.retirements == 0 && |l.data| == l.size
      modifies this`leases, this`resident, l`data, l`retirements
      ensures Valid() && l.Gone()
      ensures leases == old(leases) - {l.capability} && resident == old(resident) - l.size
    {
      Zero(l);
      l.retirements := l.retirements + 1;
      Unfile(l);
    }

    method Unfile(l: Lease)
      requires FiledBut(l) && Counted() && l.Gone()
      modifies this`leases, this`resident
      ensures Valid()
      ensures leases == old(leases) - {l.capability} && resident == old(resident) - l.size
    {
      hide Total;
      TotalWithout(leases, l.capability);
      leases := leases - {l.capability};
      resident := resident - l.size;
    }

    method Zero(l: Lease)
      requires |l.data| == l.size
      modifies l`data
      ensures l.data == seq(l.size, i => 0)
    {
      for i := 0 to |l.data|
        invariant |l.data| == l.size
        invariant forall j | 0 <= j < i :: l.data[j] == 0
      {
        l.data := l.data[i := 0];
      }
    }

    /** Close is idempotent. It retires the lease when the last reader leaves a hidden or expired one. */
    method CloseReader(r: LeaseReader, now: int)
      requires Valid() && r in readers
      modifies this`leases, this`resident, r, r.lease
      ensures Valid() && r.closed && KeepsReaders({r})
      ensures old(r.closed) ==> leases == old(leases) && unchanged(r.lease)
      ensures !old(r.closed) ==>
        && r.lease.holders == old(r.lease.holders) - {r}
        && unchanged(r.lease`expiresAt) && unchanged(r.lease`hidden)
        && (r.lease.Gone() <==> old(r.lease.holders) == {r} && (old(r.lease.hidden) || now >= old(r.lease.expiresAt)))
        && leases == if r.lease.Gone() then old(leases) - {r.lease.capability} else old(leases)
    {
      if !r.closed { Release(r, now); }
    }

    /** The last reader to leave a hidden or expired lease retires it. */
    method Release(r: LeaseReader, now: int)
      requires Valid() && r in readers && !r.closed
      modifies this`leases, this`resident, r, r.lease
      ensures Valid() && r.closed && KeepsReaders({r})
      ensures unchanged(r.lease`expiresAt) && unchanged(r.lease`hidden)
      ensures r.lease.holders == old(r.lease.holders) - {r}
      ensures r.lease.Gone() <==> old(r.lease.holders) == {r} && (old(r.lease.hidden) || now >= old(r.lease.expiresAt))
      ensures leases == if r.lease.Gone() then old(leases) - {r.lease.capability} else old(leases)
    {
      hide Filed, FiledBut, Counted, Lease.Gone;
      var l := r.lease;
      ReaderLease(r);
      Leave(r);
      if l.refCount > 0 { return; }
      if l.hidden || now >= l.expiresAt { Retire(l); }
    }

    lemma ReaderLease(r: LeaseReader)
      requires Valid() && r in readers && !r.closed
      ensures r.lease in pool && Stores(r.lease) && r in r.lease.holders && r.lease.Intact() && !r.lease.Gone()
    {
      hide Total;
    }

    /** The reader is closed and counted out. The lease stays filed, unless it is hidden and nobody reads it now. */
    method Leave(r: LeaseReader)
      requires Valid() && r in readers && !r.closed
      modifies r`closed, r.lease`refCount, r.lease`holders
      ensures r.closed && KeepsReaders({r}) && Counted()
      ensures r.lease.holders == old(r.lease.holders) - {r} && r.lease.refCount == |r.lease.holders|
      ensures r.lease.holders == {} ==> FiledBut(r.lease)
      ensures r.lease.holders != {} || !r.lease.hidden ==> Filed()
    {
      hide Filed, FiledBut, Lease.Gone;
      ReaderLease(r);
      CountOut(r);
      r.closed := true;
    }

    /** The lease alone. */
    method CountOut(r: LeaseReader)
      requires Filed() && Stores(r.lease) && r in r.lease.holders && r.lease.Intact()
      modifies r.lease`refCount, r.lease`holders
      ensures r.lease.holders == old(r.lease.holders) - {r} && r.lease.refCount == |r.lease.holders|
      ensures r.lease.holders == {} ==> FiledBut(r.lease)
      ensures r.lease.holders != {} || !r.lease.hidden ==> Filed()
    {
      hide Total, Lease.Gone;
      var l := r.lease;
      l.holders := l.holders - {r};
      l.refCount := l.refCount - 1;
    }

    /** Evict hides a lease, and retires it at once when nobody reads it. The epoch is not compared. */
    method Evict(cursor: Cursor) returns (found: bool)
      requires Valid()
      modifies this`leases, this`resident, pool`hidden, pool`data, pool`retirements
      ensures Valid() && KeepsReaders({})
      ensures found <==> cursor.Sealed? && cursor.capability in old(leases) && !old(leases[cursor.capability].hidden)
      ensures !found ==> leases == old(leases) && forall l | l in pool :: unchanged(l)
      ensures found ==>
        && var l := old(leases)[cursor.capability];
        && l.hidden && l.holders == old(l.holders)
        && leases == (if l.holders == {} then old(leases) - {cursor.capability} else old(leases))
        && forall m | m in pool && m != l :: unchanged(m)
    {
      if cursor.Malformed? || cursor.capability !in leases || leases[cursor.capability].hidden { return false; }
      Conceal(leases[cursor.capability]);
      return true;
    }

    /** Hides a stored lease, and retires it if nobody reads it. */
    method Conceal(l: Lease)
      requires Valid() && Stores(l)
      modifies this`leases, this`resident, l`hidden, l`data, l`retirements
      ensures Valid() && l.hidden
      ensures leases == if l.holders == {} then old(leases) - {l.capability} else old(leases)
    {
      hide Total;
      l.hidden := true;
      if l.refCount == 0 { Retire(l); }
    }

    /** A sweep over the leases `before` has visited all but `todo`: of the visited ones, those with readers
        are left. */
    ghost predicate Sweeping(before: Leases, todo: set<Capability>)
      reads this, pool
    {
      && todo <= leases.Keys <= before.Keys
      && (forall c | c in leases :: leases[c] == before[c])
      && (forall c | c in before :: before[c] in pool && before[c].capability == c)
      && (forall c | c in before :: c in leases <==> c in todo || before[c].holders != {})
    }

    lemma SweepBegins()
      requires Filed()
      ensures Sweeping(leases, leases.Keys) && Concealed(leases, leases.Keys)
    {
    }

    ghost predicate Concealed(before: Leases, todo: set<Capability>)
      requires forall c | c in before :: before[c] in pool
      reads this, pool
    {
      forall c | c in before && c !in todo :: before[c].hidden
    }

    /** One round of EvictAll: the lease is hidden, and retired if nobody reads it. */
    method HideOne(l: Lease, ghost before: Leases, ghost todo: set<Capability>)
      requires Valid() && Sweeping(before, todo) && l.capability in todo && before[l.capability] == l
      requires Concealed(before, todo)
      modifies this`leases, this`resident, l`hidden, l`data, l`retirements
      ensures Valid() && Sweeping(before, todo - {l.capability}) && Concealed(before, todo - {l.capability})
    {
      hide Total, Lease.Gone, Counted;
      Conceal(l);
    }

    /** The loop of EvictAll. */
    method HideAll()
      requires Valid()
      modifies this`leases, this`resident, pool`hidden, pool`data, pool`retirements
      ensures Valid() && Sweeping(old(leases), {})
      ensures forall c | c in leases :: leases[c].hidden
    {
      SweepBegins();
      hide Filed, Counted;
      ghost var before := leases;
      var todo := leases.Keys;
      while todo != {}
        invariant Valid() && Sweeping(before, todo)
        invariant Concealed(before, todo)
        decreases |todo|
      {
        var c :| c in todo;
        HideOne(leases[c], before, todo);
        todo := todo - {c};
      }
    }

    /** EvictAll: every lease is hidden, those without readers are retired. */
    method EvictAll()
      requires Valid()
      modifies this`leases, this`resident, pool`hidden, pool`data, pool`retirements
      ensures Valid() && Sweeping(old(leases), {}) && KeepsReaders({})
      ensures forall c | c in leases :: leases[c].hidden
    {
      HideAll();
    }

    /** One round of Restart. */
    method RetireIfUnread(l: Lease, ghost before: Leases, ghost todo: set<Capability>)
      requires Valid() && Sweeping(before, todo) && l.capability in todo && before[l.capability] == l
      modifies this`leases, this`resident, l`data, l`retirements
      ensures Valid() && Sweeping(before, todo - {l.capability})
    {
      hide Total;
      if l.refCount == 0 { Retire(l); }
    }

    /** The loop of Restart. */
    method RetireUnread()
      requires Valid()
      modifies this`leases, this`resident, pool`data, pool`retirements
      ensures Valid() && Sweeping(old(leases), {})
    {
      SweepBegins();
      hide Filed, Counted;
      ghost var before := leases;
      var todo := leases.Keys;
      while todo != {}
        invariant Valid() && Sweeping(before, todo)
        decreases |todo|
      {
        var c :| c in todo;
        RetireIfUnread(leases[c], before, todo);
        todo := todo - {c};
      }
    }

    /** Restart: a new epoch, and every lease without readers is retired. Without entropy the old epoch is
        complemented byte by byte. */
    method Restart(entropy: Option<Epoch>)
      requires Valid()
      modifies this`epoch, this`leases, this`resident, pool`data, pool`retirements
      ensures Valid() && Sweeping(old(leases), {}) && KeepsReaders({})
      ensures epoch == if entropy.Some? then entropy.value else Complement(old(epoch))
      ensures entropy.None? && old(epoch) != [] ==> epoch != old(epoch)
    {
      epoch := if entropy.Some? then entropy.value else Complement(epoch);
      RetireUnread();
    }
  }

  /** The calls of other parties. Close and Page name one of the readers that those parties hold. */
  datatype Command =
    | AcquireCommand(content: Text, selection: string, policy: string, entropy: Option<Capability>)
    | OpenCommand(cursor: Cursor, selection: string, policy: string)
    | LookupCommand(cursor: Cursor)
    | PageCommand(which: nat, startLine: int, maxLines: int)
    | CloseCommand(which: nat)
    | EvictCommand(cursor: Cursor)
    | EvictAllCommand
    | RestartCommand(epoch: Option<Epoch>)

  datatype Call = Call(command: Command, now: int)

  /** Other parties hold readers of this store, and none of `kept`. */
  ghost predicate Others(store: LeaseStore, others: seq<LeaseReader>, kept: set<LeaseReader>)
    reads store
  {
    forall q | q in others :: q in store.readers && q.lease in store.pool && q !in kept
  }

  /** One call of another party; a capability that is not fresh is not drawn. No reader in `kept` is closed by it. */
  method Step(store: LeaseStore, others: seq<LeaseReader>, ghost kept: set<LeaseReader>, call: Call,
              size: SourceSnapshot.Page -> nat)
    returns (held: seq<LeaseReader>)
    requires store.Valid() && kept <= store.readers && Others(store, others, kept)
    modifies store, store.pool, set q | q in others
    ensures store.Valid() && kept <= store.readers && Others(store, held, kept)
    ensures forall q | q in kept :: q.closed == old(q.closed)
    ensures forall l | l in store.pool :: l in old(store.pool) || fresh(l)
    ensures forall q | q in held :: q in others || fresh(q)
  {
    hide LeaseStore.Valid;
    held := others;
    match call.command {
      case AcquireCommand(content, selection, policy, entropy) =>
        var drawn := if entropy.Some? && entropy.value in store.leases then None else entropy;
        var _ := store.Acquire(content, selection, policy, call.now, drawn);
      case OpenCommand(cursor, selection, policy) =>
        var reader, _ := store.OpenReader(cursor, selection, policy, call.now);
        if reader.Some? { held := others + [reader.value]; }
      case LookupCommand(cursor) => var _, _ := store.Lookup(cursor, call.now);
      case PageCommand(which, startLine, maxLines) =>
        if which < |others| { var _ := store.Page(others[which], size, startLine, maxLines, call.now); }
      case CloseCommand(which) => if which < |others| { store.CloseReader(others[which], call.now); }
      case EvictCommand(cursor) => var _ := store.Evict(cursor);
      case EvictAllCommand => store.EvictAll();
      case RestartCommand(epoch) => store.Restart(epoch);
    }
  }

  /** Any sequence of calls. */
  method RunCalls(store: LeaseStore, others: seq<LeaseReader>, ghost kept: set<LeaseReader>, calls: seq<Call>,
                  size: SourceSnapshot.Page -> nat)
    requires store.Valid() && kept <= store.readers && Others(store, others, kept)
    modifies store, store.pool, set q | q in others
    ensures store.Valid() && kept <= store.readers && forall q | q in kept :: q.closed == old(q.closed)
    ensures forall l | l in store.pool :: l in old(store.pool) || fresh(l)
  {
    hide LeaseStore.Valid, Others;
    var held := others;
    for i := 0 to |calls|
      invariant store.Valid() && kept <= store.readers && Others(store, held, kept)
      invariant forall q | q in kept :: q.closed == old(q.closed)
      invariant forall l | l in store.pool :: l in old(store.pool) || fresh(l)
      invariant forall q | q in held :: q in others || fresh(q)
    {
      held := Step(store, held, kept, calls[i], size);
    }
  }

  /** In every state that a new store can reach, the accounts are right. */
  method Reachable(epoch: Epoch, capacity: int, ttl: int, calls: seq<Call>, size: SourceSnapshot.Page -> nat)
    returns (store: LeaseStore)
    requires capacity >= 0
    ensures fresh(store) && 0 <= store.resident == Total(store.leases) <= store.capacity == capacity
    ensures forall c | c in store.leases :: store.leases[c].refCount == |store.Unclosed(store.leases[c])|
    ensures forall l | l in store.pool ::
      l.retirements <= 1 && (store.Unclosed(l) != {} ==> l.retirements == 0 && l.data == l.original)
  {
    store := new LeaseStore(epoch, capacity, ttl);
    RunCalls(store, [], {}, calls, size);
    store.Accounts();
  }

  /** Whatever other parties do in between, their own readers included, a page through an open reader is the page of
      the bytes the lease was acquired with: hiding and zeroing are never visible to it. */
  method ReadAfter(store: LeaseStore, r: LeaseReader, others: seq<LeaseReader>, calls: seq<Call>, now: int,
                   size: SourceSnapshot.Page -> nat, startLine: int, maxLines: int) returns (page: Option<PageResult>)
    requires store.Valid() && r in store.readers && !r.closed && Others(store, others, {r})
    modifies store, store.pool, set q | q in others
    ensures store.Valid() && r in store.readers && !r.closed
    ensures page == Some(PageOf(Records(r.lease.original), size, startLine, maxLines))
  {
    RunCalls(store, others, {r}, calls, size);
    page := store.Page(r, size, startLine, maxLines, now);
  }

  /** No epoch is its own complement, so no cursor of the old one is accepted any more. */
  function Complement(epoch: Epoch): (r: Epoch)
    ensures |r| == |epoch| && forall i | 0 <= i < |r| :: r[i] as int + epoch[i] as int == 255
    ensures epoch != [] ==> r != epoch
  {
    var r: Epoch := seq(|epoch|, i requires 0 <= i < |epoch| => (255 - epoch[i]) as byte);
    assert epoch != [] ==> r[0] != epoch[0];
    r
  }
}
