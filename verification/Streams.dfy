/** Bounded copying of request and response bodies, and streaming firmware into the
    OTA slot. A stream may arrive in any pieces and fail at any call. */
module Streams {
  import opened Text

  type Bytes = string

  const BUFFER := 4096

  /** `std::io::Read`: at call number `k` it gives about `sizes(k)` bytes, or fails. */
  class Reader {
    const sizes: nat -> nat
    const fails: nat -> bool
    var calls: nat
    var rest: Bytes

    constructor (sizes: nat -> nat, fails: nat -> bool, body: Bytes)
      ensures this.sizes == sizes && this.fails == fails && calls == 0 && rest == body
    {
      this.sizes, this.fails, calls, rest := sizes, fails, 0, body;
    }

    /** At least one byte unless the stream has ended, at most `room`. */
    method Read(room: nat) returns (r: Result<Bytes>)
      requires room > 0
      modifies this
      ensures calls == old(calls) + 1
      ensures r.Err? <==> fails(old(calls))
      ensures r.Err? ==> rest == old(rest)
      ensures r.Ok? ==> r.value + rest == old(rest) && |r.value| <= room && (r.value == "" <==> old(rest) == "")
    {
      var wanted := sizes(calls);
      var failed := fails(calls);
      calls := calls + 1;
      if failed {
        return Err(Io);
      }
      var n := if wanted < 1 then 1 else wanted;
      n := if n > room then room else n;
      n := if n > |rest| then |rest| else n;
      r := Ok(rest[..n]);
      rest := rest[n..];
    }
  }

  /** `std::io::Write::write_all`: a failing call writes part of its data. */
  class Writer {
    const partial: nat -> Option<nat>
    var calls: nat
    var written: Bytes

    constructor (partial: nat -> Option<nat>)
      ensures this.partial == partial && calls == 0 && written == ""
    {
      this.partial, calls, written := partial, 0, "";
    }

    method WriteAll(data: Bytes) returns (ok: bool)
      modifies this
      ensures calls == old(calls) + 1
      ensures ok <==> partial(old(calls)).None?
      ensures ok ==> written == old(written) + data
      ensures old(written) <= written && |written| <= |old(written)| + |data|
    {
      var cut := partial(calls);
      calls := calls + 1;
      ok := cut.None?;
      written := written + (if ok then data else if cut.value < |data| then data[..cut.value] else data);
    }
  }

  // ----- Bounded copying -----

  class BodyLimit {
    const declaredLength: Option<nat>
    const maxSize: nat
    var received: nat

    constructor (declaredLength: Option<nat>, maxSize: nat)
      ensures this.declaredLength == declaredLength && this.maxSize == maxSize && received == 0
    {
      this.declaredLength, this.maxSize, received := declaredLength, maxSize, 0;
    }

    /** `BodyLimit::observe`; the addition is checked. */
    method Observe(count: nat) returns (ok: bool)
      modifies this
      ensures ok <==> WithinLimits(old(received) + count, declaredLength, maxSize)
      ensures ok ==> received == old(received) + count
    {
      if received + count >= USIZE_LIMIT {
        return false;
      }
      received := received + count;
      return received <= maxSize && (declaredLength.None? || received <= declaredLength.value);
    }

    method Finish() returns (ok: bool)
      ensures ok <==> Acceptable(received, declaredLength, received)
    {
      ok := declaredLength.None? || received == declaredLength.value;
    }
  }

  predicate WithinLimits(received: nat, declaredLength: Option<nat>, maxSize: nat) {
    received < USIZE_LIMIT && received <= maxSize && (declaredLength.None? || received <= declaredLength.value)
  }

  /** The bodies that are accepted, whatever pieces they come in. */
  predicate Acceptable(length: nat, declaredLength: Option<nat>, maxSize: nat) {
    && length <= maxSize
    && (declaredLength.Some? ==> declaredLength.value == length)
  }

  /** `copy_limited`. When no call fails, success depends on the length of the body
      alone and not on the pieces; nothing beyond the limits is ever written. */
  method CopyLimited(reader: Reader, writer: Writer, declaredLength: Option<nat>, maxSize: nat) returns (r: Result<nat>)
    requires maxSize < USIZE_LIMIT
    modifies reader, writer
    ensures r.Ok? ==>
              writer.written == old(writer.written) + old(reader.rest) && r.value == |old(reader.rest)|
              && reader.rest == ""
    ensures r.Ok? ==> Acceptable(|old(reader.rest)|, declaredLength, maxSize)
    ensures (forall k :: !reader.fails(k)) && (forall k :: writer.partial(k).None?) ==>
              (r.Ok? <==> Acceptable(|old(reader.rest)|, declaredLength, maxSize))
    ensures old(writer.written) <= writer.written && |writer.written| <= |old(writer.written)| + maxSize
    ensures declaredLength.Some? ==> |writer.written| <= |old(writer.written)| + declaredLength.value
  {
    if declaredLength.Some? && declaredLength.value > maxSize {
      return Err(InvalidData("body exceeds the limit"));
    }
    ghost var body, before := reader.rest, writer.written;
    ghost var done: Bytes := "";
    var limit := new BodyLimit(declaredLength, maxSize);
    while true
      invariant fresh(limit) && limit.declaredLength == declaredLength && limit.maxSize == maxSize
      invariant body == done + reader.rest && writer.written == before + done
      invariant limit.received == |done| && WithinLimits(|done|, declaredLength, maxSize)
      decreases |reader.rest|
    {
      var read := reader.Read(BUFFER);
      if read.Err? {
        return Err(Io);
      }
      if |read.value| == 0 {
        break;
      }
      assert done + read.value + reader.rest == body by {
        assert body == done + (read.value + reader.rest);
      }
      var ok := limit.Observe(|read.value|);
      if !ok {
        return Err(InvalidData("body exceeds the limit"));
      }
      ok := writer.WriteAll(read.value);
      if !ok {
        return Err(Io);
      }
      done := done + read.value;
    }
    var ok := limit.Finish();
    if !ok {
      return Err(InvalidData("body length does not match Content-Length"));
    }
    return Ok(limit.received);
  }

  // ----- Streaming firmware -----

  const MAX_FIRMWARE_SIZE := 4 * 1024 * 1024

  datatype Session = NotBegun | Writing | Aborted | Ended

  /** The update partition behind `esp_ota_begin`, `write`, `abort` and `end`. */
  class OtaSlot {
    const fails: nat -> bool
    var calls: nat
    var session: Session
    /** What has been handed to `esp_ota_write` and reported as written. */
    var flashed: Bytes

    constructor (fails: nat -> bool)
      ensures this.fails == fails && session == NotBegun && flashed == ""
    {
      this.fails, calls, session, flashed := fails, 0, NotBegun, "";
    }

    method Call() returns (ok: bool)
      modifies this`calls
      ensures ok == !fails(old(calls)) && calls == old(calls) + 1
    {
      ok := !fails(calls);
      calls := calls + 1;
    }

    method Begin() returns (ok: bool)
      modifies this
      ensures ok == !fails(old(calls))
      ensures if ok then session == Writing && flashed == "" else session == old(session) && flashed == old(flashed)
    {
      ok := Call();
      if ok {
        session, flashed := Writing, "";
      }
    }

    method Write(data: Bytes) returns (ok: bool)
      requires session == Writing
      modifies this
      ensures ok == !fails(old(calls))
      ensures session == Writing && flashed == if ok then old(flashed) + data else old(flashed)
    {
      ok := Call();
      if ok {
        flashed := flashed + data;
      }
    }

    method Abort()
      requires session == Writing
      modifies this`session
      ensures session == Aborted
    {
      session := Aborted;
    }

    method End() returns (ok: bool)
      requires session == Writing
      modifies this`calls, this`session
      ensures ok == !fails(old(calls))
      ensures session == if ok then Ended else Writing
    {
      ok := Call();
      if ok {
        session := Ended;
      }
    }
  }

  datatype FlashResult =
    | Flashed
    | Rejected
    | NoPartition
    | BeginFailed
    | ReadFailed
    | TooShort
    | WriteFailed
    | DigestMismatch
    | EndFailed

  /** `write_ota1_reader`; `digest` stands for SHA-256 in lower-case hexadecimal. It
      reports success only when exactly the first `total` bytes of the reader have
      been flashed and have the expected digest, and it aborts the session on
      every failure between beginning and end. */
  method WriteOta(slot: OtaSlot, hasPartition: bool, reader: Reader, total: nat, expected: string,
                  digest: Bytes -> string)
    returns (r: FlashResult)
    requires slot.session == NotBegun
    modifies slot, reader
    ensures r == Flashed ==>
              total <= |old(reader.rest)| && slot.flashed == old(reader.rest)[..total]
              && digest(slot.flashed) == expected
    ensures r == Flashed <==> slot.session == Ended
    ensures r in {Rejected, NoPartition, BeginFailed} <==> slot.session == NotBegun
    ensures r in {Rejected, NoPartition} ==>
              slot.calls == old(slot.calls) && slot.flashed == old(slot.flashed) && reader.rest == old(reader.rest)
    ensures r == NoPartition ==> !hasPartition
    ensures r in {ReadFailed, TooShort, WriteFailed, DigestMismatch} <==> slot.session == Aborted
    ensures r == DigestMismatch ==> total <= |old(reader.rest)| && digest(old(reader.rest)[..total]) != expected
    ensures r == TooShort ==> |old(reader.rest)| < total
    ensures (0 < total <= MAX_FIRMWARE_SIZE && ValidDigest(expected)) == (r != Rejected)
    ensures (forall k :: !reader.fails(k)) && (forall k :: !slot.fails(k)) && hasPartition && r != Rejected ==>
              (r == Flashed <==> total <= |old(reader.rest)| && digest(old(reader.rest)[..total]) == expected)
  {
    if total == 0 || total > MAX_FIRMWARE_SIZE {
      return Rejected;
    }
    if !ValidDigest(expected) {
      return Rejected;
    }
    if !hasPartition {
      return NoPartition;
    }
    var ok := slot.Begin();
    if !ok {
      return BeginFailed;
    }
    ghost var body := reader.rest;
    var written := 0;
    var hashed: Bytes := "";
    while written < total
      invariant slot.session == Writing && slot.flashed == hashed
      invariant written == |hashed| <= total && body == hashed + reader.rest
      decreases total - written
    {
      var wanted := if BUFFER < total - written then BUFFER else total - written;
      var read := reader.Read(wanted);
      if read.Err? {
        slot.Abort();
        return ReadFailed;
      }
      if |read.value| == 0 {
        slot.Abort();
        return TooShort;
      }
      assert hashed + read.value + reader.rest == body by {
        assert body == hashed + (read.value + reader.rest);
      }
      hashed := hashed + read.value;
      ok := slot.Write(read.value);
      if !ok {
        slot.Abort();
        return WriteFailed;
      }
      written := written + |read.value|;
    }
    assert hashed == body[..total];
    if digest(hashed) != expected {
      slot.Abort();
      return DigestMismatch;
    }
    ok := slot.End();
    return if ok then Flashed else EndFailed;
  }
}
