/** The address dispatcher of the virtual file driver layer (H5FD_read,
    H5FD_write, H5FD_set_eoa, H5FD_get_eoa, H5FD_get_eof) over an in-memory
    stand-in for a driver's callback table.

    Callers speak in RELATIVE addresses; the driver sees ABSOLUTE addresses,
    which are the relative ones plus the handle's fixed base address. */
module FileDriver {
  import opened Addresses

  /** H5FD_mem_t: the kinds of file memory whose end of allocation a driver tracks. */
  datatype MemType = Default | Super | BTree | Draw | GHeap | LHeap | OHdr

  newtype Byte = b: int | 0 <= b < 256

  /** The error tags the dispatcher pushes (H5E_CANTINIT, H5E_OVERFLOW,
      H5E_READERROR, H5E_WRITEERROR). */
  datatype Error = CantInit | Overflow | ReadError | WriteError

  /** herr_t: SUCCEED, or FAIL with the tag of the error that caused it. */
  datatype Status = Succeed | Fail(err: Error)

  /** A data-transfer or allocation callback the dispatcher made into the driver. */
  datatype Callback =
    | ReadCall(t: MemType, addr: Haddr, size: Haddr)
    | WriteCall(t: MemType, addr: Haddr, size: Haddr)
    | SetEoaCall(t: MemType, addr: Haddr)

  /** The n bytes of the store starting at absolute address a; bytes past
      the end of the store read as zero. */
  function ReadBytes(store: seq<Byte>, a: nat, n: nat): (r: seq<Byte>)
    ensures |r| == n
  {
    seq(n, i requires 0 <= i < n => if a + i < |store| then store[a + i] else 0)
  }

  /** The store after the bytes of data are put at absolute address a; a
      store too short for them is first padded with zeros. */
  function WriteBytes(store: seq<Byte>, a: nat, data: seq<Byte>): (r: seq<Byte>)
    ensures |r| == if a + |data| <= |store| then |store| else a + |data|
  {
    var padded := if a + |data| <= |store| then store else store + seq(a + |data| - |store|, _ => 0);
    padded[..a] + data + padded[a + |data|..]
  }

  /** Reading back the range just written yields the bytes written. */
  lemma ReadAfterWrite(store: seq<Byte>, a: nat, data: seq<Byte>)
    ensures ReadBytes(WriteBytes(store, a, data), a, |data|) == data
  {
  }

  /** A write leaves every byte outside its range as it was. */
  lemma ReadBesideWrite(store: seq<Byte>, a: nat, data: seq<Byte>, b: nat, n: nat)
    requires b + n <= a || a + |data| <= b
    ensures ReadBytes(WriteBytes(store, a, data), b, n) == ReadBytes(store, b, n)
  {
  }

  /** The bound check of H5FD_read and H5FD_write, in the source's 64-bit
      arithmetic: addr + base_addr + size must not exceed the absolute EOA. */
  predicate WithinEoa(addr: Haddr, base: Haddr, size: Haddr, eoa: Haddr)
  {
    Add(Add(addr, base), size) <= eoa
  }

  /** When the end of the request fits in 64 bits, the check is exactly the
      bound "the request ends at or before the EOA", in both directions. */
  lemma WithinEoaExact(addr: Haddr, base: Haddr, size: Haddr, eoa: Haddr)
    requires addr + base + size < ADDR_MOD
    ensures WithinEoa(addr, base, size, eoa) <==> addr + base + size <= eoa
  {
  }

  /** When the end of the request does not fit in 64 bits, the sum wraps and
      the check admits a request that runs past the EOA: here a 2-byte request
      at relative address 2^64 - 2 against an EOA of 0. */
  lemma WithinEoaWraps()
    ensures WithinEoa(HADDR_UNDEF - 1, 0, 2, 0)
    ensures (HADDR_UNDEF - 1) + 0 + 2 > 0
  {
  }

  /** An open file (H5FD_t) together with an in-memory stand-in for the
      driver class it is bound to. The stand-in keeps an absolute EOA per
      memory type, an absolute EOF (reported only if the driver has a get_eof
      callback) and a byte store. Whether a read, write or set_eoa callback
      reports failure is fixed per call: the call made at position i of the
      callback log fails exactly when i is in failing. */
  class Driver {
    /** base_addr: added to every relative address. */
    const baseAddr: Haddr
    /** maxaddr: the largest address the driver supports. */
    const maxAddr: DefinedAddr
    /** Whether the driver class has a get_eof callback, and what it reports. */
    const hasGetEof: bool
    const eof: Haddr
    /** Whether the library was built with H5_HAVE_PARALLEL. */
    const parallelBuild: bool
    /** The positions in the callback log of the calls that fail. */
    const failing: set<nat>

    /** The driver's absolute end of allocation per memory type. */
    var eoa: map<MemType, Haddr>
    /** The driver's bytes, by absolute address. */
    var store: seq<Byte>
    /** Every read, write and set_eoa callback made so far, oldest first; its
        length is the position of the next call. */
    var log: seq<Callback>

    constructor (baseAddr: Haddr, maxAddr: DefinedAddr, hasGetEof: bool, eof: Haddr,
                 parallelBuild: bool, failing: set<nat>,
                 eoa: map<MemType, Haddr>, store: seq<Byte>)
      ensures this.baseAddr == baseAddr && this.maxAddr == maxAddr
      ensures this.hasGetEof == hasGetEof && this.eof == eof
      ensures this.parallelBuild == parallelBuild
      ensures this.failing == failing
      ensures this.eoa == eoa && this.store == store && log == []
    {
      this.baseAddr, this.maxAddr := baseAddr, maxAddr;
      this.hasGetEof, this.eof := hasGetEof, eof;
      this.parallelBuild := parallelBuild;
      this.failing := failing;
      this.eoa, this.store := eoa, store;
      log := [];
    }

    // ---- the stand-in's callbacks (file->cls->...) ----

    /** get_eoa callback: the absolute EOA of type t, or HADDR_UNDEF if the
        driver has none. */
    function DriverGetEoa(t: MemType): Haddr
      reads this`eoa
    {
      if t in eoa then eoa[t] else HADDR_UNDEF
    }

    method DriverRead(t: MemType, a: Haddr, size: Haddr) returns (ok: bool, buf: seq<Byte>)
      modifies this`log
      ensures log == old(log) + [ReadCall(t, a, size)]
      ensures ok == (|old(log)| !in failing)
      ensures buf == if ok then ReadBytes(store, a, size) else []
    {
      ok := |log| !in failing;
      log := log + [ReadCall(t, a, size)];
      buf := if ok then ReadBytes(store, a, size) else [];
    }

    method DriverWrite(t: MemType, a: Haddr, size: Haddr, buf: seq<Byte>) returns (ok: bool)
      requires |buf| == size
      modifies this`store, this`log
      ensures log == old(log) + [WriteCall(t, a, size)]
      ensures ok == (|old(log)| !in failing)
      ensures store == if ok then WriteBytes(old(store), a, buf) else old(store)
    {
      ok := |log| !in failing;
      log := log + [WriteCall(t, a, size)];
      if ok {
        store := WriteBytes(store, a, buf);
      }
    }

    method DriverSetEoa(t: MemType, a: Haddr) returns (ok: bool)
      modifies this`eoa, this`log
      ensures log == old(log) + [SetEoaCall(t, a)]
      ensures ok == (|old(log)| !in failing)
      ensures eoa == if ok then old(eoa)[t := a] else old(eoa)
    {
      ok := |log| !in failing;
      log := log + [SetEoaCall(t, a)];
      if ok {
        eoa := eoa[t := a];
      }
    }

    // ---- the dispatcher ----

    /** Whether a read or write of size bytes at relative address addr gets
        past the checks and reaches the driver: it is not the serial no-op,
        the driver reports an EOA for t, and the request ends within it. */
    predicate Forwarded(t: MemType, addr: Haddr, size: Haddr)
      reads this`eoa
    {
      (parallelBuild || size != 0)
      && DriverGetEoa(t) != HADDR_UNDEF
      && WithinEoa(addr, baseAddr, size, DriverGetEoa(t))
    }

    /** H5FD_read: read size bytes of memory type t at relative address addr. */
    method Read(t: MemType, addr: Haddr, size: Haddr) returns (st: Status, buf: seq<Byte>)
      modifies this`log
      // the serial build's no-op: success, and the driver is not asked anything
      ensures !parallelBuild && size == 0 ==> st == Succeed && buf == [] && log == old(log)
      // no EOA for t: failure, and no read callback
      ensures (parallelBuild || size != 0) && DriverGetEoa(t) == HADDR_UNDEF ==>
                st == Fail(CantInit) && log == old(log)
      // request ends past the EOA: overflow, and no read callback
      ensures (parallelBuild || size != 0) && DriverGetEoa(t) != HADDR_UNDEF
              && !WithinEoa(addr, baseAddr, size, DriverGetEoa(t)) ==>
                st == Fail(Overflow) && log == old(log)
      // otherwise one read callback at the absolute address, same type and size
      ensures Forwarded(t, addr, size) ==>
                log == old(log) + [ReadCall(t, Add(addr, baseAddr), size)]
                && st == (if |old(log)| in failing then Fail(ReadError) else Succeed)
      ensures st == Succeed ==> buf == ReadBytes(store, Add(addr, baseAddr), size)
      ensures st.Fail? ==> buf == []
    {
      if !parallelBuild && size == 0 {
        return Succeed, [];
      }
      var eoaAbs := DriverGetEoa(t);
      if eoaAbs == HADDR_UNDEF {
        return Fail(CantInit), [];
      }
      if !WithinEoa(addr, baseAddr, size, eoaAbs) {
        return Fail(Overflow), [];
      }
      var ok;
      ok, buf := DriverRead(t, Add(addr, baseAddr), size);
      if !ok {
        return Fail(ReadError), [];
      }
      st := Succeed;
    }

    /** H5FD_write: write the size bytes of buf as memory type t at relative address addr. */
    method Write(t: MemType, addr: Haddr, size: Haddr, buf: seq<Byte>) returns (st: Status)
      requires |buf| == size
      modifies this`store, this`log
      ensures !parallelBuild && size == 0 ==>
                st == Succeed && store == old(store) && log == old(log)
      ensures (parallelBuild || size != 0) && DriverGetEoa(t) == HADDR_UNDEF ==>
                st == Fail(CantInit) && store == old(store) && log == old(log)
      ensures (parallelBuild || size != 0) && DriverGetEoa(t) != HADDR_UNDEF
              && !WithinEoa(addr, baseAddr, size, DriverGetEoa(t)) ==>
                st == Fail(Overflow) && store == old(store) && log == old(log)
      ensures Forwarded(t, addr, size) ==>
                log == old(log) + [WriteCall(t, Add(addr, baseAddr), size)]
                && st == (if |old(log)| in failing then Fail(WriteError) else Succeed)
      ensures store == if Forwarded(t, addr, size) && st == Succeed
                       then WriteBytes(old(store), Add(addr, baseAddr), buf)
                       else old(store)
    {
      if !parallelBuild && size == 0 {
        return Succeed;
      }
      var eoaAbs := DriverGetEoa(t);
      if eoaAbs == HADDR_UNDEF {
        return Fail(CantInit);
      }
      if !WithinEoa(addr, baseAddr, size, eoaAbs) {
        return Fail(Overflow);
      }
      var ok := DriverWrite(t, Add(addr, baseAddr), size, buf);
      if !ok {
        return Fail(WriteError);
      }
      st := Succeed;
    }

    /** H5FD_set_eoa: set the end of allocation of type t to the relative address addr. */
    method SetEoa(t: MemType, addr: Haddr) returns (st: Status)
      requires addr != HADDR_UNDEF && addr <= maxAddr
      modifies this`eoa, this`log
      ensures log == old(log) + [SetEoaCall(t, Add(addr, baseAddr))]
      ensures st == (if |old(log)| in failing then Fail(CantInit) else Succeed)
      // failure has no side effect on the EOAs
      ensures st.Fail? ==> eoa == old(eoa)
      // success stores the absolute address for t only
      ensures st == Succeed ==> eoa == old(eoa)[t := Add(addr, baseAddr)]
      // and get_eoa then gives back addr itself
      ensures st == Succeed && Add(addr, baseAddr) != HADDR_UNDEF ==> GetEoa(t) == addr
      ensures forall u :: u != t ==> GetEoa(u) == old(GetEoa(u))
    {
      var ok := DriverSetEoa(t, Add(addr, baseAddr));
      if !ok {
        return Fail(CantInit);
      }
      TranslateRoundTrip(addr, baseAddr);
      st := Succeed;
    }

    /** H5FD_get_eoa: the end of allocation of type t as a relative address,
        or HADDR_UNDEF if the driver reports none. */
    function GetEoa(t: MemType): (r: Haddr)
      reads this`eoa
      ensures DriverGetEoa(t) == HADDR_UNDEF ==> r == HADDR_UNDEF
      // translating the result back gives the driver's absolute EOA
      ensures DriverGetEoa(t) != HADDR_UNDEF ==> Add(r, baseAddr) == DriverGetEoa(t)
      // with no borrow, the result is the driver's EOA less the base, and defined
      ensures baseAddr <= DriverGetEoa(t) < HADDR_UNDEF ==>
                r == DriverGetEoa(t) - baseAddr && r != HADDR_UNDEF
    {
      var abs := DriverGetEoa(t);
      TranslateRoundTrip(abs, baseAddr);
      if abs == HADDR_UNDEF then HADDR_UNDEF else Sub(abs, baseAddr)
    }

    /** H5FD_get_eof: the end of file as a relative address. A driver without a
        get_eof callback is taken to extend to maxaddr. */
    function GetEof(): (r: Haddr)
      ensures hasGetEof && eof == HADDR_UNDEF ==> r == HADDR_UNDEF
      ensures hasGetEof && eof != HADDR_UNDEF ==> Add(r, baseAddr) == eof
      ensures hasGetEof && baseAddr <= eof < HADDR_UNDEF ==>
                r == eof - baseAddr && r != HADDR_UNDEF
      ensures !hasGetEof ==> Add(r, baseAddr) == maxAddr
      ensures !hasGetEof && baseAddr <= maxAddr ==>
                r == maxAddr - baseAddr && r != HADDR_UNDEF
    {
      TranslateRoundTrip(eof, baseAddr);
      TranslateRoundTrip(maxAddr, baseAddr);
      if hasGetEof then
        (if eof == HADDR_UNDEF then HADDR_UNDEF else Sub(eof, baseAddr))
      else
        Sub(maxAddr, baseAddr)
    }
  }

  /** H5FD_write followed by H5FD_read of the same range: when both succeed,
      the read returns the bytes written. */
  method WriteThenRead(d: Driver, t: MemType, addr: Haddr, data: seq<Byte>)
      returns (wst: Status, rst: Status, buf: seq<Byte>)
    requires |data| < ADDR_MOD
    modifies d`store, d`log
    ensures wst == Succeed && rst == Succeed ==> buf == data
  {
    wst := d.Write(t, addr, |data|, data);
    rst, buf := d.Read(t, addr, |data|);
    if wst == Succeed && rst == Succeed && |data| != 0 {
      ReadAfterWrite(old(d.store), Add(addr, d.baseAddr), data);
    }
  }
}
