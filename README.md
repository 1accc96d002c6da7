# HDF5 virtual file driver: address translation and signature search

This project models the internal dispatch layer of the HDF5 1.8.20 virtual file
driver (VFD) interface, `H5FDint.c`, and proves properties of the model in
Dafny. It has two parts.

- **Address dispatcher.** `H5FD_read`, `H5FD_write`, `H5FD_set_eoa`,
  `H5FD_get_eoa` and `H5FD_get_eof` take *relative* addresses from the library.
  They hand *absolute* addresses, the relative ones plus the file's fixed
  `base_addr`, to the driver's callbacks. Results come back relative again.
  Read and write are refused when the request ends past the driver's end of
  allocation (EOA) for the memory type. A zero-size request is a no-op in a
  serial build. A driver without a `get_eof` callback is taken to extend to
  `maxaddr`.
- **Signature locator.** `H5FD_locate_signature` looks for the 8-byte HDF5
  format signature. It tries address 0 first, then 512, 1024, … up to the
  bit length of the relative EOF. These are the places where the HDF5 File Format
  Specification (level 0A, "Format Signature and Superblock") allows the
  superblock to start after a user block. Before each probe it raises the
  superblock EOA to the end of the probed signature, because the read checks
  that bound. It puts the EOA back only when no probe matches.

Files:

- `addresses.dfy` (module `Addresses`): `haddr_t` as a 64-bit unsigned value.
  Addition and subtraction wrap as in C. `HADDR_UNDEF` is the all-ones
  sentinel. Also powers of two and the bit length that the search loop
  computes.
- `driver.dfy` (module `FileDriver`): class `Driver`, an open file (`H5FD_t`)
  bound to an in-memory stand-in for its driver's callback table. It holds:
  - the immutable `baseAddr` and `maxAddr`;
  - a mutable absolute EOA per memory type;
  - an optional EOF (`hasGetEof`, `eof`);
  - a byte store;
  - the set `failing` of positions in the callback log whose read, write or
    set_eoa call fails;
  - a log of the read, write and set_eoa callbacks made, in order.

  The dispatcher operations are methods and functions of that class.
- `locate.dfy` (module `Signature`): the signature locator, with the
  specification of the probe order (`Candidate`, `MaxPow`, `FirstMatch`) and
  its lemmas.

The 64-bit arithmetic of the source is modelled explicitly. `WithinEoa` is the
bound check `addr + base_addr + size > eoa` computed modulo 2^64.
`FileDriver.WithinEoaExact` proves it is the exact bound whenever the sum fits
in 64 bits. `FileDriver.WithinEoaWraps` shows a request whose end wraps past
2^64 that the check lets through. The source's drivers reject such addresses
themselves, so this is recorded as behaviour of the model, not as a defect.

Four places where the source behaves in a way that is easy to misread; the model follows the code:

- With no `get_eof` callback, `H5FD_get_eof` returns `maxaddr - base_addr`
  (`H5FDint.c:377-380`), not `maxaddr` itself. The two agree only when the
  base address is 0.
- `H5FD_set_eoa` checks that the address is defined and at most `maxaddr` only
  by a debug assertion (`H5FDint.c:291`). The model makes that a precondition,
  not an error result. For the same reason `LocateSignature` requires
  `ProbesWithinMaxAddr`: the end of every probe the search reaches (those up
  to the first match, or all of them when nothing matches) and, when nothing
  matches, the restored EOA must meet that assertion. Probes past the first
  match are never made, so they are not constrained.
- A search that finds nothing returns SUCCEED with `*sig_addr = HADDR_UNDEF`.
  Only the failure to read EOF/EOA, to set the EOA or to read a probe returns
  FAIL (`H5FDint.c:129-160`).
- Defined inputs can still produce `HADDR_UNDEF`, through the wrapping add of
  `H5FD_set_eoa` (`H5FDint.c:294`) or the wrapping subtraction of
  `H5FD_get_eoa` and `H5FD_get_eof` (`H5FDint.c:334`, `380`);
  `Addresses.TranslateCanGiveUndef` shows both. So "get_eoa after set_eoa(X)
  returns X" holds only when `X + base_addr` is not all ones, and get_eof is
  also undefined when the EOF (or `maxaddr`) is exactly `base_addr - 1` modulo
  2^64, not only when the callback reports it.

## Model

| member | source | states |
|---|---|---|
| Addresses.TranslateRoundTrip | hdf5-1.8.20/src/H5FDint.c:294 | subtracting `base_addr` undoes adding it, so a relative address survives the trip to the driver and back even when the sum wraps |
| Addresses.TranslateCanGiveUndef | hdf5-1.8.20/src/H5FDint.c:294-380 | a defined address plus a defined base can carry to all ones, and subtracting the base can borrow to all ones, so a translated address can be `HADDR_UNDEF` |
| Addresses.BitLenBounds | hdf5-1.8.20/src/H5FDint.c:128-132 | the shift count of the EOF is the least N with 2^N above it: 2^N exceeds the EOF and 2^(N-1) does not |
| Addresses.BitLenLeast | hdf5-1.8.20/src/H5FDint.c:128-132 | 2^n exceeds x exactly when n is at least the bit length of x |
| Addresses.Pow2Monotone | hdf5-1.8.20/src/H5FDint.c:140 | powers of two grow with the exponent, so probe addresses grow with n |
| FileDriver.ReadAfterWrite | hdf5-1.8.20/src/H5FDint.c:208 | the stand-in store gives back the bytes just written at the same absolute address; `Read` and `Write` forward to that address, and `WriteThenRead` states the round trip through the dispatcher |
| FileDriver.ReadBesideWrite | hdf5-1.8.20/src/H5FDint.c:257 | a write changes no byte outside the range it forwards |
| FileDriver.WithinEoaExact | hdf5-1.8.20/src/H5FDint.c:203 | when `addr + base_addr + size` fits in 64 bits, the check passes exactly when the request ends at or before the EOA |
| FileDriver.WithinEoaWraps | hdf5-1.8.20/src/H5FDint.c:252 | when the sum wraps, the check lets through a request that ends past the EOA |
| FileDriver.WriteThenRead | hdf5-1.8.20/src/H5FDint.c:180-262 | an `H5FD_write` followed by an `H5FD_read` of the same range at the same relative address, when both succeed, reads back exactly the bytes written |
| FileDriver.Driver.Read | hdf5-1.8.20/src/H5FDint.c:180-213 | zero size in a serial build: success with no driver call. No EOA: CantInit, no read call. Request past the EOA: Overflow, no read call. Otherwise exactly one read callback at `addr + base_addr` with the same type and size; its failure becomes ReadError, its success yields the driver's bytes |
| FileDriver.Driver.Write | hdf5-1.8.20/src/H5FDint.c:229-262 | the same guards as read. Refused writes leave the store and the callback log unchanged. A forwarded write makes one write callback at `addr + base_addr`; on success the store holds the bytes there, on failure WriteError with the store unchanged |
| FileDriver.Driver.SetEoa | hdf5-1.8.20/src/H5FDint.c:283-299 | needs a defined `addr <= maxaddr`. Stores `addr + base_addr` for that type only. A failure (CantInit) changes no EOA. After success, when `addr + base_addr` is not all ones, `GetEoa` of that type is `addr`; every other type's EOA is unchanged |
| FileDriver.Driver.GetEoa | hdf5-1.8.20/src/H5FDint.c:320-338 | HADDR_UNDEF when the driver reports none. Otherwise a relative value that gives back the driver's absolute EOA when the base is added. Without a borrow it is exactly the driver EOA minus `base_addr`, and defined |
| FileDriver.Driver.GetEof | hdf5-1.8.20/src/H5FDint.c:362-384 | HADDR_UNDEF when an existing get_eof callback reports it. Otherwise the driver EOF, or `maxaddr` without the callback, translated to a relative address: the unique value that gives it back when `base_addr` is added (HADDR_UNDEF itself when that value is all ones). Without a borrow it is exactly that value minus `base_addr`, and defined |
| Signature.BitLength | hdf5-1.8.20/src/H5FDint.c:131-132 | the shift loop stops at the bit length of the EOF: the least n with 2^n above it |
| Signature.MaxPowCoversEof | hdf5-1.8.20/src/H5FDint.c:128-133 | the relative EOF lies below 2^maxpow |
| Signature.CandidatesIncrease | hdf5-1.8.20/src/H5FDint.c:139-140 | probes are made in strictly increasing address order |
| Signature.CandidateWithinLast | hdf5-1.8.20/src/H5FDint.c:139-141 | no probe lies beyond the last one, so the bound on the last probe covers them all |
| Signature.CandidateIsUserBlockSize | hdf5-1.8.20/src/H5FDint.c:133-140 | every probe address is 0, or a power of two that is at least 512, below 2^maxpow and not past the relative EOF |
| Signature.FirstMatchIsFirst | hdf5-1.8.20/src/H5FDint.c:139-147 | the exponent the search stops at holds the signature unless it is maxpow, and no earlier candidate holds it |
| Signature.MatchAtZeroBoundsFirstProbeOnly | hdf5-1.8.20/src/H5FDint.c:139-146 | with the signature at 0 the search stops at the first probe, so the only set_eoa address that must be within `maxaddr` is 8 |
| Signature.SignatureAtZeroFoundFirst | hdf5-1.8.20/src/H5FDint.c:139-146 | a signature at address 0 is found by the first probe |
| Signature.SignatureAt512FoundSecond | hdf5-1.8.20/src/H5FDint.c:139-146 | a signature at 512 and not at 0 is found by the second probe |
| Signature.ProbeWithinOwnEoa | hdf5-1.8.20/src/H5FDint.c:141-143 | a probe's read ends exactly at the EOA just set for it, so it always passes the read's bound check |
| Signature.ProbeCallsShape | hdf5-1.8.20/src/H5FDint.c:139-147 | the probes for exponents i up to j make exactly 2(j - i) driver calls, and the set_eoa and the read of the probe for exponent n sit at positions 2(n - i) and 2(n - i) + 1 |
| Signature.Probe | hdf5-1.8.20/src/H5FDint.c:139-146 | one loop round for exponent n. The probed address is 0 for n = 8 and 2^n above. It makes one set_eoa call at `addr + 8 + base_addr`, then one 8-byte read at `addr + base_addr` unless set_eoa failed or left no EOA; nothing else. The superblock EOA is raised unless set_eoa fails. Succeeds exactly when set_eoa succeeds, the raised EOA is defined and the read succeeds; then it reports whether the signature is at `addr` |
| Signature.SearchCandidates | hdf5-1.8.20/src/H5FDint.c:139-147 | on success it stops at the first matching exponent k (maxpow when none matches), with the superblock EOA at the end of that probe. The driver has then seen the set_eoa/read pair of each exponent 8, 9, …, k in that order and no further call. A failure happens in the probe at some exponent n < maxpow, after the complete pairs of the exponents before it. Only the superblock EOA ever changes. With no failing callback from the start of the search and every probe's raised absolute EOA defined, it succeeds |
| Signature.LocateSignature | hdf5-1.8.20/src/H5FDint.c:118-164 | undefined EOF or superblock EOA: CantInit with no side effect. Success returns the first candidate (0, 512, 1024, …) holding the signature and leaves the superblock EOA at its end. If no candidate holds it, returns HADDR_UNDEF with the EOA restored. The driver sees the set_eoa/read pair of each exponent from 8 up to the match, and no call after it. On a miss it sees the pairs of all exponents below maxpow and then exactly one set_eoa that restores the saved absolute EOA. Failure leaves `*sig_addr` alone and no EOA other than the superblock's changes. Succeeds whenever the EOF and superblock EOA are defined, no driver callback from the start of the search fails, and every probe's raised absolute EOA is defined |

## Left out

- `H5FD_int_init_interface` (`H5FDint.c:94-100`) only triggers the library's lazy interface initialisation; it has no behaviour of its own.
- The `FUNC_ENTER`/`HGOTO_ERROR` error stack is reduced to a `Status` carrying one error tag (CantInit, Overflow, ReadError, WriteError). Messages and the pushed major/minor codes are not modelled.
- The data-transfer property list `dxpl` and the assertions on its class (`H5FDint.c:190`, `239`) are left out: they inspect opaque library objects that the dispatcher forwards unchanged.
- The `H5_HAVE_PARALLEL` build is only the flag `parallelBuild`, which turns off the zero-size shortcut. Collective MPI I/O is not modelled.
- Real drivers (sec2, core, family, MPI-IO) are foreign callbacks. They are replaced by the in-memory stand-in described above. Its EOF is fixed, so writes do not extend it. Whether a callback fails is fixed in advance by its position in the callback log (`failing`), not by any I/O condition.
- The get_eoa and get_eof callbacks are pure queries in the stand-in, so the callback log does not record them. That the zero-size case skips the EOA query is therefore stated only as "success, no callback".
- On failure the C read leaves the caller's buffer unspecified; the model returns an empty buffer.
- The width of `haddr_t`/`size_t` (64 bits), the value of `HADDR_UNDEF`, the memory types of `H5FD_mem_t` and the value of `H5F_SIGNATURE` (`\211HDF\r\n\032\n`, 8 bytes) come from headers that are not part of this model.
- Opening a file, and the driver's own check that `maxaddr` is defined, are not part of this model. `maxAddr` is typed as a defined address.
- Signature.LocateSignature: after a failure part-way through the search, the value left in the superblock EOA (that of the last probe raised) and the callbacks made are not stated; only that no other EOA changed. `SearchCandidates` states which probes were made before the failure.
- Signature.SearchCandidates: after a search that matches nothing, the superblock EOA left by the last probe is not stated; `LocateSignature` restores it.
- `talign.c` is a test program that drives the public API with floating-point data; it is not part of this model.
