/**
 The counters of a rule under concurrency: each CPU bumps them with plain loads
 and stores, in any interleaving with the others.
 */
module LostUpdates {
  import opened Bytes

  /** Where a CPU is within one bump of `len` bytes, and what it has loaded. */
  datatype Local =
    | Idle
    | PktLoaded(pkt: u64, len: nat)
    | PktStored(len: nat)
    | ByteLoaded(bytes: u64, len: nat)

  datatype State = State(pktCount: u64, byteCount: u64, cpus: seq<Local>)

  /** One memory access by one CPU. */
  datatype Access =
    | LoadPkt(cpu: nat, len: nat)
    | StorePkt(cpu: nat)
    | LoadByte(cpu: nat)
    | StoreByte(cpu: nat)

  /** The access is the next one of its CPU. */
  predicate Enabled(s: State, a: Access) {
    && a.cpu < |s.cpus|
    && match a
       case LoadPkt(c, _) => s.cpus[c].Idle?
       case StorePkt(c) => s.cpus[c].PktLoaded?
       case LoadByte(c) => s.cpus[c].PktStored?
       case StoreByte(c) => s.cpus[c].ByteLoaded?
  }

  function Next(s: State, a: Access): State
    requires Enabled(s, a)
  {
    match a
    case LoadPkt(c, len) => s.(cpus := s.cpus[c := PktLoaded(s.pktCount, len)])
    case StorePkt(c) =>
      s.(pktCount := (s.cpus[c].pkt + 1) % U64_SIZE, cpus := s.cpus[c := PktStored(s.cpus[c].len)])
    case LoadByte(c) => s.(cpus := s.cpus[c := ByteLoaded(s.byteCount, s.cpus[c].len)])
    case StoreByte(c) =>
      s.(byteCount := (s.cpus[c].bytes + s.cpus[c].len) % U64_SIZE, cpus := s.cpus[c := Idle])
  }

  /** The state after the first `n` accesses, if each was enabled. */
  ghost function After(cpus: nat, trace: seq<Access>, n: nat): State
    requires n <= |trace| && Legal(cpus, trace, n)
    decreases n, 1
  {
    if n == 0 then State(0, 0, seq(cpus, i => Idle)) else Next(After(cpus, trace, n - 1), trace[n - 1])
  }

  ghost predicate Legal(cpus: nat, trace: seq<Access>, n: nat)
    requires n <= |trace|
    decreases n, 0
  {
    n == 0 || (Legal(cpus, trace, n - 1) && Enabled(After(cpus, trace, n - 1), trace[n - 1]))
  }

  /** Bumps begun. */
  ghost function Begun(trace: seq<Access>, n: nat): nat
    requires n <= |trace|
  {
    if n == 0 then 0 else Begun(trace, n - 1) + if trace[n - 1].LoadPkt? then 1 else 0
  }

  /** The bytes of the bumps begun. */
  ghost function BegunBytes(trace: seq<Access>, n: nat): nat
    requires n <= |trace|
  {
    if n == 0 then 0 else BegunBytes(trace, n - 1) + if trace[n - 1].LoadPkt? then trace[n - 1].len else 0
  }

  /** Stores to pkt_count. */
  ghost function Stores(trace: seq<Access>, n: nat): nat
    requires n <= |trace|
  {
    if n == 0 then 0 else Stores(trace, n - 1) + if trace[n - 1].StorePkt? then 1 else 0
  }

  /** How many stores to pkt_count there had been when CPU `c` last loaded it. */
  ghost function Seen(trace: seq<Access>, n: nat, c: nat): nat
    requires n <= |trace|
  {
    if n == 0 then 0
    else if trace[n - 1].LoadPkt? && trace[n - 1].cpu == c then Stores(trace, n - 1)
    else Seen(trace, n - 1, c)
  }

  /** No store of another CPU ever falls between a load of pkt_count and the store that follows it. */
  ghost predicate Serial(trace: seq<Access>, n: nat)
    requires n <= |trace|
  {
    n == 0
    || (Serial(trace, n - 1)
        && (trace[n - 1].StorePkt? ==> Seen(trace, n - 1, trace[n - 1].cpu) == Stores(trace, n - 1)))
  }

  // ----- Bumps in progress -----

  function InFlight(cpus: seq<Local>): nat {
    if cpus == [] then 0
    else InFlight(cpus[..|cpus| - 1]) + if cpus[|cpus| - 1].PktLoaded? then 1 else 0
  }

  /** The bytes a CPU has yet to add. */
  function Owed(l: Local): nat {
    if l.Idle? then 0 else l.len
  }

  function OwedBytes(cpus: seq<Local>): nat {
    if cpus == [] then 0 else OwedBytes(cpus[..|cpus| - 1]) + Owed(cpus[|cpus| - 1])
  }

  lemma {:induction false} SumsAfterUpdate(cpus: seq<Local>, c: nat, l: Local)
    requires c < |cpus|
    ensures InFlight(cpus[c := l]) + (if cpus[c].PktLoaded? then 1 else 0)
            == InFlight(cpus) + (if l.PktLoaded? then 1 else 0)
    ensures OwedBytes(cpus[c := l]) + Owed(cpus[c]) == OwedBytes(cpus) + Owed(l)
  {
    var n := |cpus| - 1;
    if c < n {
      SumsAfterUpdate(cpus[..n], c, l);
      assert cpus[c := l][..n] == cpus[..n][c := l];
    } else {
      assert cpus[c := l][..n] == cpus[..n];
    }
  }

  lemma {:induction false} IdleSums(cpus: seq<Local>)
    requires forall c :: 0 <= c < |cpus| ==> cpus[c].Idle?
    ensures InFlight(cpus) == 0 && OwedBytes(cpus) == 0
  {
    if cpus != [] {
      IdleSums(cpus[..|cpus| - 1]);
    }
  }

  lemma {:induction false} BegunIsStoredOrInFlight(cpus: nat, trace: seq<Access>, n: nat)
    requires n <= |trace| && Legal(cpus, trace, n)
    ensures Begun(trace, n) == Stores(trace, n) + InFlight(After(cpus, trace, n).cpus)
  {
    if n == 0 {
      IdleSums(After(cpus, trace, 0).cpus);
    } else {
      BegunIsStoredOrInFlight(cpus, trace, n - 1);
      var s, a := After(cpus, trace, n - 1), trace[n - 1];
      SumsAfterUpdate(s.cpus, a.cpu, Next(s, a).cpus[a.cpu]);
    }
  }

  // ----- pkt_count -----

  /** How the packet counter and the loaded copies of it stand to the number of stores. */
  ghost predicate PktBound(s: State, trace: seq<Access>, n: nat)
    requires n <= |trace|
  {
    && s.pktCount <= Stores(trace, n)
    && (forall c :: 0 <= c < |s.cpus| && s.cpus[c].PktLoaded? ==>
          && s.cpus[c].pkt <= Seen(trace, n, c) <= Stores(trace, n)
          && (Serial(trace, n) ==> s.cpus[c].pkt == Seen(trace, n, c))
          && (Seen(trace, n, c) == Stores(trace, n) ==> s.cpus[c].pkt == s.pktCount))
    && (s.pktCount == Stores(trace, n) <==> Serial(trace, n))
  }

  /** A load or a store of the byte counter keeps the bound. */
  lemma {:induction false} LoadKeepsPktBound(s: State, trace: seq<Access>, n: nat)
    requires 0 < n <= |trace| && PktBound(s, trace, n - 1) && Enabled(s, trace[n - 1]) && !trace[n - 1].StorePkt?
    ensures PktBound(Next(s, trace[n - 1]), trace, n)
  {
  }

  /** So does a store of the packet counter, which has not wrapped. */
  lemma {:induction false} StoreKeepsPktBound(s: State, trace: seq<Access>, n: nat)
    requires 0 < n <= |trace| && PktBound(s, trace, n - 1) && Enabled(s, trace[n - 1]) && trace[n - 1].StorePkt?
    requires Stores(trace, n) < U64_SIZE
    ensures PktBound(Next(s, trace[n - 1]), trace, n)
  {
    var c, t := trace[n - 1].cpu, Next(s, trace[n - 1]);
    assert t.pktCount == s.cpus[c].pkt + 1;
    assert Stores(trace, n) == Stores(trace, n - 1) + 1;
    assert forall i :: 0 <= i < |s.cpus| && t.cpus[i].PktLoaded? ==> i != c && t.cpus[i] == s.cpus[i];
  }

  lemma {:induction false} PktInvariant(cpus: nat, trace: seq<Access>, n: nat)
    requires n <= |trace| && Legal(cpus, trace, n) && Begun(trace, n) < U64_SIZE
    ensures PktBound(After(cpus, trace, n), trace, n)
  {
    if n > 0 {
      hide PktBound, Next;
      PktInvariant(cpus, trace, n - 1);
      BegunIsStoredOrInFlight(cpus, trace, n);
      if trace[n - 1].StorePkt? {
        StoreKeepsPktBound(After(cpus, trace, n - 1), trace, n);
      } else {
        LoadKeepsPktBound(After(cpus, trace, n - 1), trace, n);
      }
    }
  }

  // ----- byte_count -----

  /** Every byte value around, with what its CPU still owes, is covered by the bumps begun. */
  ghost predicate ByteBound(s: State, begun: nat) {
    && s.byteCount + OwedBytes(s.cpus) <= begun
    && (forall c :: 0 <= c < |s.cpus| && s.cpus[c].ByteLoaded? ==>
          s.cpus[c].bytes + OwedBytes(s.cpus) <= begun)
  }

  lemma {:induction false} OwedAtLeast(cpus: seq<Local>, c: nat)
    requires c < |cpus|
    ensures OwedBytes(cpus) >= Owed(cpus[c])
  {
    if c < |cpus| - 1 {
      OwedAtLeast(cpus[..|cpus| - 1], c);
    }
  }

  lemma {:induction false} ByteInvariant(cpus: nat, trace: seq<Access>, n: nat)
    requires n <= |trace| && Legal(cpus, trace, n) && BegunBytes(trace, n) < U64_SIZE
    ensures ByteBound(After(cpus, trace, n), BegunBytes(trace, n))
  {
    if n == 0 {
      IdleSums(After(cpus, trace, 0).cpus);
    } else {
      ByteInvariant(cpus, trace, n - 1);
      var s, a := After(cpus, trace, n - 1), trace[n - 1];
      SumsAfterUpdate(s.cpus, a.cpu, Next(s, a).cpus[a.cpu]);
      OwedAtLeast(s.cpus, a.cpu);
    }
  }

  /** Stores to byte_count. */
  ghost function ByteStores(trace: seq<Access>, n: nat): nat
    requires n <= |trace|
  {
    if n == 0 then 0 else ByteStores(trace, n - 1) + if trace[n - 1].StoreByte? then 1 else 0
  }

  /** How many stores to byte_count there had been when CPU `c` last loaded it. */
  ghost function SeenBytes(trace: seq<Access>, n: nat, c: nat): nat
    requires n <= |trace|
  {
    if n == 0 then 0
    else if trace[n - 1].LoadByte? && trace[n - 1].cpu == c then ByteStores(trace, n - 1)
    else SeenBytes(trace, n - 1, c)
  }

  /** No store of another CPU ever falls between a load of byte_count and the store that follows it. */
  ghost predicate ByteSerial(trace: seq<Access>, n: nat)
    requires n <= |trace|
  {
    n == 0
    || (ByteSerial(trace, n - 1)
        && (trace[n - 1].StoreByte? ==> SeenBytes(trace, n - 1, trace[n - 1].cpu) == ByteStores(trace, n - 1)))
  }

  /** Every bump adds something: no frame is empty. */
  ghost predicate NoneEmpty(trace: seq<Access>) {
    forall i :: 0 <= i < |trace| && trace[i].LoadPkt? ==> trace[i].len > 0
  }

  /** How the byte counter and the loaded copies of it stand to the bytes whose store is done. */
  ghost predicate ByteExact(s: State, trace: seq<Access>, n: nat, done: int)
    requires n <= |trace|
  {
    && s.byteCount <= done
    && (s.byteCount == done <==> ByteSerial(trace, n))
    && (forall c :: 0 <= c < |s.cpus| ==> s.cpus[c].Idle? || s.cpus[c].len > 0)
    && (forall c :: 0 <= c < |s.cpus| && s.cpus[c].ByteLoaded? ==>
          && s.cpus[c].bytes <= done && SeenBytes(trace, n, c) <= ByteStores(trace, n)
          && (if SeenBytes(trace, n, c) == ByteStores(trace, n) then s.cpus[c].bytes == s.byteCount
              else s.cpus[c].bytes < done))
  }

  /** Any access but a store of the byte counter leaves the bytes done as they are. */
  lemma {:induction false} LoadKeepsByteExact(s: State, trace: seq<Access>, n: nat, done: int)
    requires 0 < n <= |trace| && NoneEmpty(trace)
    requires ByteExact(s, trace, n - 1, done) && Enabled(s, trace[n - 1]) && !trace[n - 1].StoreByte?
    ensures ByteExact(Next(s, trace[n - 1]), trace, n, done)
  {
  }

  /** A store adds its length to them; what other CPUs have loaded is out of date from then on. */
  lemma {:induction false} StoreKeepsByteExact(s: State, trace: seq<Access>, n: nat, done: int)
    requires 0 < n <= |trace| && NoneEmpty(trace)
    requires ByteExact(s, trace, n - 1, done) && Enabled(s, trace[n - 1]) && trace[n - 1].StoreByte?
    requires done + s.cpus[trace[n - 1].cpu].len < U64_SIZE
    ensures ByteExact(Next(s, trace[n - 1]), trace, n, done + s.cpus[trace[n - 1].cpu].len)
  {
    var c, t := trace[n - 1].cpu, Next(s, trace[n - 1]);
    assert t.byteCount == s.cpus[c].bytes + s.cpus[c].len;
    assert ByteStores(trace, n) == ByteStores(trace, n - 1) + 1;
    assert forall i :: 0 <= i < |s.cpus| && t.cpus[i].ByteLoaded? ==> i != c && t.cpus[i] == s.cpus[i];
  }

  lemma {:induction false} ByteExactInvariant(cpus: nat, trace: seq<Access>, n: nat)
    requires n <= |trace| && Legal(cpus, trace, n) && BegunBytes(trace, n) < U64_SIZE && NoneEmpty(trace)
    ensures ByteExact(After(cpus, trace, n), trace, n, BegunBytes(trace, n) - OwedBytes(After(cpus, trace, n).cpus))
  {
    hide Next, ByteExact;
    if n == 0 {
      InitialByteExact(cpus, trace);
    } else {
      ByteExactInvariant(cpus, trace, n - 1);
      var s, a := After(cpus, trace, n - 1), trace[n - 1];
      var done := BegunBytes(trace, n - 1) - OwedBytes(s.cpus);
      OwedAfter(s, a);
      if a.StoreByte? {
        StoreKeepsByteExact(s, trace, n, done);
      } else {
        LoadKeepsByteExact(s, trace, n, done);
      }
    }
  }

  lemma InitialByteExact(cpus: nat, trace: seq<Access>)
    ensures ByteExact(State(0, 0, seq(cpus, i => Idle)), trace, 0, 0 - OwedBytes(seq(cpus, i => Idle)))
  {
    IdleSums(seq(cpus, i => Idle));
  }

  /** The first access of a bump incurs its length, the last one pays it. */
  lemma {:induction false} OwedAfter(s: State, a: Access)
    requires Enabled(s, a)
    ensures OwedBytes(Next(s, a).cpus) == OwedBytes(s.cpus)
            + (match a
               case LoadPkt(_, len) => len
               case StoreByte(c) => 0 - s.cpus[c].len
               case _ => 0)
  {
    SumsAfterUpdate(s.cpus, a.cpu, Next(s, a).cpus[a.cpu]);
    assert Next(s, a).cpus == s.cpus[a.cpu := Next(s, a).cpus[a.cpu]];
  }

  // ----- Main results -----

  /**
   Under every interleaving, and before the counters wrap at 2^64, lost updates
   only undercount: pkt_count never exceeds the bumps begun, byte_count never
   their bytes.
   */
  lemma LostUpdatesOnlyUndercount(cpus: nat, trace: seq<Access>, n: nat)
    requires n <= |trace| && Legal(cpus, trace, n)
    requires Begun(trace, n) < U64_SIZE && BegunBytes(trace, n) < U64_SIZE
    ensures After(cpus, trace, n).pktCount <= Begun(trace, n)
    ensures After(cpus, trace, n).byteCount <= BegunBytes(trace, n)
  {
    PktInvariant(cpus, trace, n);
    BegunIsStoredOrInFlight(cpus, trace, n);
    ByteInvariant(cpus, trace, n);
  }

  /** When all CPUs are idle, pkt_count is exact if and only if no load-store pair was ever interrupted. */
  lemma ExactIffSerial(cpus: nat, trace: seq<Access>, n: nat)
    requires n <= |trace| && Legal(cpus, trace, n) && Begun(trace, n) < U64_SIZE
    requires forall c :: 0 <= c < |After(cpus, trace, n).cpus| ==> After(cpus, trace, n).cpus[c].Idle?
    ensures After(cpus, trace, n).pktCount == Begun(trace, n) <==> Serial(trace, n)
  {
    PktInvariant(cpus, trace, n);
    BegunIsStoredOrInFlight(cpus, trace, n);
    IdleSums(After(cpus, trace, n).cpus);
  }

  /** byte_count likewise, for its own load-store pairs. */
  lemma BytesExactIffSerial(cpus: nat, trace: seq<Access>, n: nat)
    requires n <= |trace| && Legal(cpus, trace, n) && BegunBytes(trace, n) < U64_SIZE && NoneEmpty(trace)
    requires forall c :: 0 <= c < |After(cpus, trace, n).cpus| ==> After(cpus, trace, n).cpus[c].Idle?
    ensures After(cpus, trace, n).byteCount == BegunBytes(trace, n) <==> ByteSerial(trace, n)
  {
    ByteExactInvariant(cpus, trace, n);
    IdleSums(After(cpus, trace, n).cpus);
  }
}
