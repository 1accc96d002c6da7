/** H5FD_locate_signature: find the HDF5 format signature at address 0 or at
    a power of two no smaller than 512, the places a user block of the HDF5
    File Format Specification (level 0A, "Format Signature and Superblock")
    lets the superblock start. */
module Signature {
  import opened Addresses
  import opened FileDriver

  /** H5F_SIGNATURE: the bytes \211 'H' 'D' 'F' \r \n \032 \n. */
  const SIGNATURE: seq<Byte> := [0x89, 0x48, 0x44, 0x46, 0x0d, 0x0a, 0x1a, 0x0a]
  /** H5F_SIGNATURE_LEN */
  const SIG_LEN: Haddr := 8

  /** maxpow: the least N with 2^N larger than the relative EOF, but at least 9. */
  function MaxPow(eofRel: nat): nat
  {
    if BitLen(eofRel) < 9 then 9 else BitLen(eofRel)
  }

  /** The address probed for exponent n: 0 for n = 8 (no user block),
      2^n above it. */
  function Candidate(n: nat): nat
  {
    if n == 8 then 0 else Pow2(n)
  }

  /** Whether the signature is stored at relative address rel of a file
      whose driver holds store and whose base address is base. */
  predicate SigAt(store: seq<Byte>, base: Haddr, rel: nat)
  {
    rel < ADDR_MOD && ReadBytes(store, Add(rel, base), |SIGNATURE|) == SIGNATURE
  }

  /** The first exponent in [n, maxpow) whose candidate holds the signature,
      or maxpow if none does. */
  function FirstMatch(store: seq<Byte>, base: Haddr, n: nat, maxpow: nat): (k: nat)
    decreases maxpow - n
  {
    if n >= maxpow then maxpow
    else if SigAt(store, base, Candidate(n)) then n
    else FirstMatch(store, base, n + 1, maxpow)
  }

  /** FirstMatch finds the earliest matching candidate: every candidate before
      it fails to match, and it matches unless it is maxpow (none matched). */
  lemma {:induction false} FirstMatchIsFirst(store: seq<Byte>, base: Haddr, n: nat, maxpow: nat)
    requires n <= maxpow
    ensures var k := FirstMatch(store, base, n, maxpow);
      n <= k <= maxpow
      && (k < maxpow ==> SigAt(store, base, Candidate(k)))
      && (forall j :: n <= j < k ==> !SigAt(store, base, Candidate(j)))
    decreases maxpow - n
  {
    if n < maxpow && !SigAt(store, base, Candidate(n)) {
      FirstMatchIsFirst(store, base, n + 1, maxpow);
    }
  }

  /** A signature at address 0 is found by the first probe. */
  lemma SignatureAtZeroFoundFirst(store: seq<Byte>, base: Haddr, maxpow: nat)
    requires 9 <= maxpow
    requires SigAt(store, base, 0)
    ensures FirstMatch(store, base, 8, maxpow) == 8 && Candidate(8) == 0
  {
  }

  /** A signature at 512 and not at 0 is found by the second probe, provided
      the search range reaches 2^9. */
  lemma SignatureAt512FoundSecond(store: seq<Byte>, base: Haddr, maxpow: nat)
    requires 10 <= maxpow
    requires !SigAt(store, base, 0) && SigAt(store, base, 512)
    ensures FirstMatch(store, base, 8, maxpow) == 9 && Candidate(9) == 512
  {
  }

  /** Candidates are probed in increasing address order. */
  lemma CandidatesIncrease(i: nat, j: nat)
    requires 8 <= i < j
    ensures Candidate(i) < Candidate(j)
  {
    if i > 8 {
      Pow2StrictlyMonotone(i, j);
    }
  }

  lemma CandidateWithinLast(n: nat, last: nat)
    requires 8 <= n <= last
    ensures Candidate(n) <= Candidate(last)
  {
    if n < last {
      CandidatesIncrease(n, last);
    }
  }

  /** Each candidate for maxpow is 0 or a power of two that is at least 512
      and below 2^maxpow, and none lies past the relative EOF. */
  lemma CandidateIsUserBlockSize(n: nat, eofRel: nat)
    requires 8 <= n < MaxPow(eofRel)
    ensures Candidate(n) == 0 || (512 <= Candidate(n) && Candidate(n) == Pow2(n))
    ensures Candidate(n) < Pow2(MaxPow(eofRel))
    ensures Candidate(n) <= eofRel
  {
    if n > 8 {
      Pow2Monotone(9, n);
      assert Pow2(9) == 512;
      Pow2StrictlyMonotone(n, MaxPow(eofRel));
      BitLenBounds(eofRel);
      Pow2Monotone(n, BitLen(eofRel) - 1);
    }
  }

  /** The relative EOF is below 2^maxpow: every address of the file is
      covered by the search range. */
  lemma MaxPowCoversEof(eofRel: nat)
    ensures eofRel < Pow2(MaxPow(eofRel))
  {
    BitLenLeast(eofRel, MaxPow(eofRel));
  }

  /** The loop of H5FD_locate_signature that finds the least N such that
      2^N is larger than x, by shifting x right until it is zero. */
  method BitLength(x: Haddr) returns (n: nat)
    ensures n == BitLen(x)
    ensures x < Pow2(n)
    ensures n > 0 ==> Pow2(n - 1) <= x
  {
    n := 0;
    var a: nat := x;
    while a != 0
      invariant a <= x
      invariant n + BitLen(a) == BitLen(x)
      decreases a
    {
      a := a / 2;
      n := n + 1;
    }
    BitLenBounds(x);
  }

  /** The last exponent the search can reach when the first match is at k:
      k itself, or maxpow - 1 when nothing matches. */
  function LastProbed(k: nat, maxpow: nat): nat
    requires 0 < maxpow
  {
    if k < maxpow then k else maxpow - 1
  }

  /** The debug assertions of H5FD_set_eoa hold for every call the locator
      can make: the end of each probe up to the first match (of every probe
      when nothing matches) is within maxaddr, and so is the saved EOA when
      nothing matches and it is restored. Probes past the match are never
      made, so they are not constrained. */
  predicate ProbesWithinMaxAddr(file: Driver)
    reads file`eoa, file`store
  {
    var eofRel := file.GetEof();
    var eoaRel := file.GetEoa(Super);
    eofRel != HADDR_UNDEF && eoaRel != HADDR_UNDEF ==>
      var maxpow := MaxPow(eofRel);
      var k := FirstMatch(file.store, file.baseAddr, 8, maxpow);
      Candidate(LastProbed(k, maxpow)) + SIG_LEN <= file.maxAddr
      && (k == maxpow ==> eoaRel <= file.maxAddr)
  }

  /** When the signature is at address 0 the search stops at the first probe,
      so the only set_eoa address that must be within maxaddr is 8. */
  lemma MatchAtZeroBoundsFirstProbeOnly(store: seq<Byte>, base: Haddr, maxpow: nat)
    requires 9 <= maxpow
    requires SigAt(store, base, 0)
    ensures Candidate(LastProbed(FirstMatch(store, base, 8, maxpow), maxpow)) + SIG_LEN == 8
  {
  }

  /** Whether the driver reports a defined EOA after the EOA is raised to the
      end of the probe at candidate address c. */
  predicate ProbeEoaDefined(file: Driver, c: nat)
  {
    c < ADDR_MOD && Add(Add(c, SIG_LEN), file.baseAddr) != HADDR_UNDEF
  }

  /** Candidate(n) as the 64-bit haddr_t the source computes for it; this
      is the one conversion from a candidate to an address, and it is the
      identity for every exponent the search probes, whose candidate fits. */
  function ProbeAddr(n: nat): Haddr
  {
    Candidate(n) % ADDR_MOD
  }

  /** The driver calls of the probe at exponent n, in absolute addresses:
      set the superblock EOA to the end of the signature there, then read
      its 8 bytes. */
  function ProbePair(base: Haddr, n: nat): seq<Callback>
  {
    [SetEoaCall(Super, Add(Add(ProbeAddr(n), SIG_LEN), base)),
     ReadCall(Super, Add(ProbeAddr(n), base), SIG_LEN)]
  }

  /** The driver calls of the probes at exponents i, i + 1, ..., j - 1, in
      that order. */
  function ProbeCalls(base: Haddr, i: nat, j: nat): seq<Callback>
    decreases j
  {
    if j <= i then [] else ProbeCalls(base, i, j - 1) + ProbePair(base, j - 1)
  }

  /** The probes from exponent i up to j make two calls each, and the calls
      of the probe at exponent n sit at positions 2(n - i) and 2(n - i) + 1. */
  lemma {:induction false} ProbeCallsShape(base: Haddr, i: nat, j: nat)
    requires i <= j
    ensures |ProbeCalls(base, i, j)| == 2 * (j - i)
    ensures forall n :: i <= n < j ==>
              ProbeCalls(base, i, j)[2 * (n - i) .. 2 * (n - i) + 2] == ProbePair(base, n)
    decreases j
  {
    if i < j {
      ProbeCallsShape(base, i, j - 1);
      var prev := ProbeCalls(base, i, j - 1);
      assert ProbeCalls(base, i, j) == prev + ProbePair(base, j - 1);
      forall n | i <= n < j
        ensures ProbeCalls(base, i, j)[2 * (n - i) .. 2 * (n - i) + 2] == ProbePair(base, n)
      {
        if n < j - 1 {
          assert (prev + ProbePair(base, j - 1))[2 * (n - i) .. 2 * (n - i) + 2]
              == prev[2 * (n - i) .. 2 * (n - i) + 2];
        }
      }
    }
  }

  /** Appending the calls of the probe at exponent n to those of the probes
      before it gives the calls of the probes up to n. */
  lemma ProbeCallsAppend(log0: seq<Callback>, log1: seq<Callback>, log2: seq<Callback>, base: Haddr, n: nat)
    requires 8 <= n
    requires log1 == log0 + ProbeCalls(base, 8, n)
    requires log2 == log1 + ProbePair(base, n)
    ensures log2 == log0 + ProbeCalls(base, 8, n + 1)
  {
    assert ProbeCalls(base, 8, n + 1) == ProbeCalls(base, 8, n) + ProbePair(base, n);
  }

  /** A probe's read ends exactly at the EOA the locator has just set for it,
      so it always passes the dispatcher's bound check. */
  lemma ProbeWithinOwnEoa(addr: Haddr, base: Haddr)
    requires addr + SIG_LEN < ADDR_MOD
    ensures WithinEoa(addr, base, SIG_LEN, Add(Add(addr, SIG_LEN), base))
  {
  }

  /** One round of the search loop, for exponent n: compute the candidate
      address, raise the superblock EOA to the end of the signature there,
      read that many bytes at it and compare them with the signature.
      The ghost parameters log0 and eoa0 (the callback log and the EOAs when
      the search began), their two requires and the last group of ensures
      are loop bookkeeping for SearchCandidates, not behaviour of the round:
      they restate the round's effect relative to the start of the search. */
  method Probe(file: Driver, n: nat, ghost log0: seq<Callback>, ghost eoa0: map<MemType, Haddr>)
      returns (st: Status, addr: Haddr, matched: bool)
    requires 8 <= n && Candidate(n) + SIG_LEN <= file.maxAddr
    requires file.log == log0 + ProbeCalls(file.baseAddr, 8, n)
    requires file.eoa - {Super} == eoa0 - {Super}
    modifies file`eoa, file`log
    ensures addr == Candidate(n)
    // one set_eoa call, then one 8-byte read unless set_eoa failed or left no EOA
    ensures file.log == old(file.log)
              + (if |old(file.log)| !in file.failing && ProbeEoaDefined(file, addr)
                 then ProbePair(file.baseAddr, n) else ProbePair(file.baseAddr, n)[..1])
    ensures file.eoa == if |old(file.log)| in file.failing then old(file.eoa)
                        else old(file.eoa)[Super := Add(Add(addr, SIG_LEN), file.baseAddr)]
    ensures st == Succeed <==>
              |old(file.log)| !in file.failing && ProbeEoaDefined(file, addr)
              && |old(file.log)| + 1 !in file.failing
    ensures st == Succeed ==> matched == SigAt(file.store, file.baseAddr, addr)
    // loop bookkeeping: the same effect, relative to the start of the search
    ensures file.eoa - {Super} == eoa0 - {Super}
    ensures st.Fail? ==> log0 + ProbeCalls(file.baseAddr, 8, n) < file.log
    ensures st == Succeed ==>
              file.log == log0 + ProbeCalls(file.baseAddr, 8, n + 1)
              && file.eoa == eoa0[Super := Add(Add(addr, SIG_LEN), file.baseAddr)]
  {
    matched := false;
    addr := if n == 8 then 0 else Pow2(n);
    assert ProbeAddr(n) == addr;
    ghost var eoa1, log1 := file.eoa, file.log;
    UpdateKey(eoa0, eoa1, Super, Add(Add(addr, SIG_LEN), file.baseAddr));
    ProbeWithinOwnEoa(addr, file.baseAddr);
    st := file.SetEoa(Super, Add(addr, SIG_LEN));
    if st.Fail? {
      return;
    }
    var buf;
    st, buf := file.Read(Super, addr, SIG_LEN);
    if st.Fail? {
      return;
    }
    ProbeCallsAppend(log0, log1, file.log, file.baseAddr, n);
    matched := buf == SIGNATURE;
  }

  /** The search loop of H5FD_locate_signature: probe the candidates for
      exponents 8, 9, ..., maxpow - 1 in turn and stop at the first one that
      holds the signature. n is the exponent the loop stopped at (maxpow when
      every probe missed) and addr the last address probed. */
  method SearchCandidates(file: Driver, maxpow: nat) returns (st: Status, n: nat, addr: Haddr)
    requires 9 <= maxpow
    requires Candidate(LastProbed(FirstMatch(file.store, file.baseAddr, 8, maxpow), maxpow)) + SIG_LEN
             <= file.maxAddr
    modifies file`eoa, file`log
    ensures file.eoa - {Super} == old(file.eoa) - {Super}
    // a failure comes from the probe at exponent n, after those before it
    ensures st.Fail? ==>
              st.err == CantInit && 8 <= n < maxpow
              && old(file.log) + ProbeCalls(file.baseAddr, 8, n) < file.log
    // success: the probes for exponents 8 up to the first match, and no more
    ensures st == Succeed ==>
              n == FirstMatch(file.store, file.baseAddr, 8, maxpow)
              && file.log == old(file.log)
                             + ProbeCalls(file.baseAddr, 8, if n < maxpow then n + 1 else maxpow)
    ensures st == Succeed && n < maxpow ==>
              addr == Candidate(n)
              && file.eoa == old(file.eoa)[Super := Add(Add(addr, SIG_LEN), file.baseAddr)]
    // with no failing callback from here on, the search completes
    ensures (forall i :: i in file.failing ==> i < |old(file.log)|)
            && (forall k :: 8 <= k < maxpow ==> ProbeEoaDefined(file, Candidate(k)))
            ==> st == Succeed
  {
    n, addr := 8, 0;
    while n < maxpow
      invariant 8 <= n <= maxpow
      invariant FirstMatch(file.store, file.baseAddr, n, maxpow)
                == FirstMatch(file.store, file.baseAddr, 8, maxpow)
      invariant file.eoa - {Super} == old(file.eoa) - {Super}
      invariant file.log == old(file.log) + ProbeCalls(file.baseAddr, 8, n)
      decreases maxpow - n
    {
      FirstMatchIsFirst(file.store, file.baseAddr, n, maxpow);
      CandidateWithinLast(n, LastProbed(FirstMatch(file.store, file.baseAddr, 8, maxpow), maxpow));
      var matched;
      st, addr, matched := Probe(file, n, old(file.log), old(file.eoa));
      if st.Fail? {
        return Fail(CantInit), n, addr;
      }
      if matched {
        return Succeed, n, addr;
      }
      n := n + 1;
    }
    st := Succeed;
  }

  /** H5FD_locate_signature. sigAddrIn is what *sig_addr holds on entry; it is
      returned unchanged when the search fails. */
  method LocateSignature(file: Driver, sigAddrIn: Haddr) returns (st: Status, sigAddr: Haddr)
    requires ProbesWithinMaxAddr(file)
    modifies file`eoa, file`log
    // an undefined EOF or superblock EOA is a failure with no side effect
    ensures file.GetEof() == HADDR_UNDEF || old(file.GetEoa(Super)) == HADDR_UNDEF ==>
              st == Fail(CantInit) && file.eoa == old(file.eoa) && file.log == old(file.log)
    // a failure leaves *sig_addr alone and touches only the superblock EOA
    ensures st.Fail? ==>
              st.err == CantInit && sigAddr == sigAddrIn
              && file.eoa - {Super} == old(file.eoa) - {Super}
    // success: the first matching candidate in probe order, or HADDR_UNDEF;
    // the driver sees the probes up to that candidate, and on a miss all of
    // them followed by one set_eoa that restores the saved EOA
    ensures st == Succeed ==>
              var maxpow := MaxPow(file.GetEof());
              var k := FirstMatch(file.store, file.baseAddr, 8, maxpow);
              file.GetEof() != HADDR_UNDEF && old(file.GetEoa(Super)) != HADDR_UNDEF
              && (k == maxpow ==>
                    sigAddr == HADDR_UNDEF && file.eoa == old(file.eoa)
                    && file.log == old(file.log) + ProbeCalls(file.baseAddr, 8, maxpow)
                                   + [SetEoaCall(Super, old(file.DriverGetEoa(Super)))])
              && (k < maxpow ==>
                    sigAddr == Candidate(k) && SigAt(file.store, file.baseAddr, sigAddr)
                    && file.eoa == old(file.eoa)[Super := Add(Add(sigAddr, SIG_LEN), file.baseAddr)]
                    && file.log == old(file.log) + ProbeCalls(file.baseAddr, 8, k + 1))
    // a driver none of whose callbacks fail from here on lets the search complete
    ensures file.GetEof() != HADDR_UNDEF && old(file.GetEoa(Super)) != HADDR_UNDEF
            && (forall i :: i in file.failing ==> i < |old(file.log)|)
            && (forall k :: 8 <= k < MaxPow(file.GetEof()) ==> ProbeEoaDefined(file, Candidate(k)))
            ==> st == Succeed
  {
    var eofRel := file.GetEof();
    if eofRel == HADDR_UNDEF {
      return Fail(CantInit), sigAddrIn;
    }
    var eoaRel := file.GetEoa(Super);
    if eoaRel == HADDR_UNDEF {
      return Fail(CantInit), sigAddrIn;
    }
    ghost var eoa0 := file.eoa;

    var maxpow := BitLength(eofRel);
    maxpow := if maxpow < 9 then 9 else maxpow;
    assert maxpow == MaxPow(eofRel);
    ghost var k := FirstMatch(file.store, file.baseAddr, 8, maxpow);
    assert Candidate(LastProbed(k, maxpow)) + SIG_LEN <= file.maxAddr
           && (k == maxpow ==> eoaRel <= file.maxAddr);

    var n, addr;
    st, n, addr := SearchCandidates(file, maxpow);
    if st.Fail? {
      return Fail(CantInit), sigAddrIn;
    }
    FirstMatchIsFirst(file.store, file.baseAddr, 8, maxpow);
    if n >= maxpow {
      // not found: put the superblock EOA back
      ghost var eoa1 := file.eoa;
      st := file.SetEoa(Super, eoaRel);
      if st.Fail? {
        return Fail(CantInit), sigAddrIn;
      }
      TranslateRoundTrip(eoa0[Super], file.baseAddr);
      UpdateKey(eoa0, eoa1, Super, eoa0[Super]);
      assert eoa0[Super := eoa0[Super]] == eoa0;
      return Succeed, HADDR_UNDEF;
    }
    sigAddr := addr;
  }

  /** Two maps that agree except at one key agree once that key is given a value. */
  lemma UpdateKey<K, V>(m0: map<K, V>, m1: map<K, V>, key: K, v: V)
    requires m1 - {key} == m0 - {key}
    ensures m1[key := v] == m0[key := v]
  {
    forall k | k != key
      ensures k in m1 <==> k in m0
      ensures k in m1 ==> m1[k] == m0[k]
    {
      assert k in m1 <==> k in m1 - {key};
      assert k in m0 <==> k in m0 - {key};
    }
  }
}
