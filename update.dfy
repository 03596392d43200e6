/** Firmware and web-application updates over HTTP (`POST /api/system/OTA` and
    `POST /api/system/OTAWWW`): the request body is received in pieces of at most
    1000 bytes and written to flash as it arrives, while the system module's
    update flag and status text report progress. */
module Update {
  import opened Common
  import opened Http

  // ---------------------------------------------------------------------------
  // Receiving

  /** What `httpd_req_recv` returns on a timeout; the loops retry. */
  const HTTPD_SOCK_ERR_TIMEOUT: int := -3

  /** The receive buffer of both update handlers. */
  const RECV_BUF_SIZE: nat := 1000

  /** The largest partition an ESP32 flash chip holds (16 MiB). */
  const MAX_PARTITION_SIZE: nat := 0x100_0000

  /** The number of bytes one receive stores: a positive result `n` is cut to the
      `ask` bytes requested, since `httpd_req_recv` never returns more. */
  function Taken(n: int, ask: nat): (t: nat)
    requires n > 0 && ask > 0
    ensures 0 < t <= ask && t <= n
  {
    if n < ask then n else ask
  }

  /** The piece asked for while `remaining` bytes are outstanding. */
  function Ask(remaining: nat): (a: nat)
    requires remaining > 0
    ensures 0 < a <= remaining && a <= RECV_BUF_SIZE
  {
    if remaining < RECV_BUF_SIZE then remaining else RECV_BUF_SIZE
  }

  /** Receive calls from `k` on time out only finitely often. */
  ghost predicate TimeoutsEnd(recv: nat -> int, bound: nat)
  {
    forall k :: k >= bound ==> recv(k) != HTTPD_SOCK_ERR_TIMEOUT
  }

  /** Every receive either times out or delivers bytes. */
  ghost predicate NeverFails(recv: nat -> int)
  {
    forall k :: recv(k) > 0 || recv(k) == HTTPD_SOCK_ERR_TIMEOUT
  }

  // ---------------------------------------------------------------------------
  // The receive loop, by its definition

  /** How the receive-and-write loop of both update handlers ends: its outcome,
      the number of bytes it wrote, and the number of write calls it made. */
  datatype Run = Run(outcome: Outcome, received: nat, writes: nat)

  /** The receive-and-write loop, step by step, with `remaining` bytes
      outstanding, `k` the next receive call and `w` the next write call: a
      timeout is retried; a receive of 0 or less ends the loop with a protocol
      error; otherwise the bytes received, at most those asked for, are written,
      and a failed write ends the loop with a write error. `bound` only
      witnesses that the timeouts end. */
  ghost function StreamRun(recv: nat -> int, writeOk: nat -> bool, bound: nat, remaining: nat, k: nat, w: nat): (r: Run)
    requires TimeoutsEnd(recv, bound)
    ensures r.outcome == ProtocolError || r.outcome == WriteError || r.outcome == Completed
    ensures r.received <= remaining && (r.outcome == Completed ==> r.received == remaining)
    decreases remaining, if k < bound then bound - k else 0
  {
    if remaining == 0 then Run(Completed, 0, 0)
    else if recv(k) == HTTPD_SOCK_ERR_TIMEOUT then StreamRun(recv, writeOk, bound, remaining, k + 1, w)
    else if recv(k) <= 0 then Run(ProtocolError, 0, 0)
    else
      var len := Taken(recv(k), Ask(remaining));
      if !writeOk(w) then Run(WriteError, 0, 1)
      else
        var rest := StreamRun(recv, writeOk, bound, remaining - len, k + 1, w + 1);
        Run(rest.outcome, len + rest.received, 1 + rest.writes)
  }

  /** A run that has already written `received` bytes in `writes` write calls. */
  ghost function Then(received: nat, writes: nat, rest: Run): Run
  {
    Run(rest.outcome, received + rest.received, writes + rest.writes)
  }

  /** Every write of a run succeeds but a failing last one, which ends it with a
      write error: the run makes write calls `w` up to `w + writes`. */
  lemma {:induction false} RunWrites(recv: nat -> int, writeOk: nat -> bool, bound: nat, remaining: nat, k: nat, w: nat)
    requires TimeoutsEnd(recv, bound)
    ensures var r := StreamRun(recv, writeOk, bound, remaining, k, w);
      (r.outcome == WriteError ==> r.writes > 0)
      && forall j :: w <= j < w + r.writes ==>
        (writeOk(j) <==> !(r.outcome == WriteError && j == w + r.writes - 1))
    decreases remaining, if k < bound then bound - k else 0
  {
    if remaining > 0 && recv(k) == HTTPD_SOCK_ERR_TIMEOUT {
      RunWrites(recv, writeOk, bound, remaining, k + 1, w);
    } else if remaining > 0 && recv(k) > 0 && writeOk(w) {
      var len := Taken(recv(k), Ask(remaining));
      RunWrites(recv, writeOk, bound, remaining - len, k + 1, w + 1);
    }
  }

  /** A run ends with a protocol error only after a receive call, from `k` on,
      that returned 0 or less without timing out. */
  lemma {:induction false} RunProtocolError(recv: nat -> int, writeOk: nat -> bool, bound: nat, remaining: nat, k: nat, w: nat)
    requires TimeoutsEnd(recv, bound)
    requires StreamRun(recv, writeOk, bound, remaining, k, w).outcome == ProtocolError
    ensures exists j :: k <= j && recv(j) <= 0 && recv(j) != HTTPD_SOCK_ERR_TIMEOUT
    decreases remaining, if k < bound then bound - k else 0
  {
    if recv(k) == HTTPD_SOCK_ERR_TIMEOUT {
      RunProtocolError(recv, writeOk, bound, remaining, k + 1, w);
    } else if recv(k) > 0 {
      var len := Taken(recv(k), Ask(remaining));
      RunProtocolError(recv, writeOk, bound, remaining - len, k + 1, w + 1);
    }
  }

  /** With no failed receive and no failed write, the run receives everything. */
  lemma {:induction false} RunCompletes(recv: nat -> int, writeOk: nat -> bool, bound: nat, remaining: nat, k: nat, w: nat)
    requires TimeoutsEnd(recv, bound) && NeverFails(recv) && forall j :: writeOk(j)
    ensures StreamRun(recv, writeOk, bound, remaining, k, w).outcome == Completed
    decreases remaining, if k < bound then bound - k else 0
  {
    if remaining == 0 {
    } else if recv(k) == HTTPD_SOCK_ERR_TIMEOUT {
      RunCompletes(recv, writeOk, bound, remaining, k + 1, w);
    } else {
      assert writeOk(w);
      var len := Taken(recv(k), Ask(remaining));
      RunCompletes(recv, writeOk, bound, remaining - len, k + 1, w + 1);
    }
  }

  /** A receive that times out is retried: the run goes on from the next call. */
  lemma RunTimeout(run: Run, recv: nat -> int, writeOk: nat -> bool, bound: nat, remaining: nat, k: nat, w: nat,
                   received: nat)
    requires TimeoutsEnd(recv, bound) && remaining > 0 && recv(k) == HTTPD_SOCK_ERR_TIMEOUT
    requires run == Then(received, w, StreamRun(recv, writeOk, bound, remaining, k, w))
    ensures k < bound
    ensures run == Then(received, w, StreamRun(recv, writeOk, bound, remaining, k + 1, w))
  {
  }

  /** One successful step of the loop moves `len` bytes from the rest of the run
      to what is already written. */
  lemma RunStep(run: Run, recv: nat -> int, writeOk: nat -> bool, bound: nat, remaining: nat, k: nat, w: nat,
                received: nat, len: nat)
    requires TimeoutsEnd(recv, bound) && remaining > 0 && recv(k) > 0 && writeOk(w)
    requires len == Taken(recv(k), Ask(remaining))
    requires run == Then(received, w, StreamRun(recv, writeOk, bound, remaining, k, w))
    ensures run == Then(received + len, w + 1, StreamRun(recv, writeOk, bound, remaining - len, k + 1, w + 1))
  {
  }

  /** The loop ends with nothing left to receive. */
  lemma RunCompleted(run: Run, recv: nat -> int, writeOk: nat -> bool, bound: nat, k: nat, w: nat, received: nat)
    requires TimeoutsEnd(recv, bound)
    requires run == Then(received, w, StreamRun(recv, writeOk, bound, 0, k, w))
    ensures run == Run(Completed, received, w)
  {
  }

  /** The loop ends on a receive that failed without timing out. */
  lemma RunReceiveFailed(run: Run, recv: nat -> int, writeOk: nat -> bool, bound: nat, remaining: nat, k: nat, w: nat,
                         received: nat)
    requires TimeoutsEnd(recv, bound)
    requires remaining > 0 && recv(k) != HTTPD_SOCK_ERR_TIMEOUT && recv(k) <= 0
    requires run == Then(received, w, StreamRun(recv, writeOk, bound, remaining, k, w))
    ensures run == Run(ProtocolError, received, w)
  {
  }

  /** The loop ends on a failed write of the bytes just received. */
  lemma RunWriteFailed(run: Run, recv: nat -> int, writeOk: nat -> bool, bound: nat, remaining: nat, k: nat, w: nat,
                       received: nat)
    requires TimeoutsEnd(recv, bound)
    requires remaining > 0 && recv(k) > 0 && !writeOk(w)
    requires run == Then(received, w, StreamRun(recv, writeOk, bound, remaining, k, w))
    ensures run == Run(WriteError, received, w + 1)
  {
  }

  // ---------------------------------------------------------------------------
  // Progress

  /** `uint8_t percentage = 100 - ((remaining * 100 / req->content_len))` in 32-bit
      C arithmetic: the product wraps, the quotient is unsigned, the result is cut
      to 8 bits. */
  function Percentage(remaining: nat, contentLen: nat): byte
    requires contentLen > 0
  {
    var product := (remaining * 100) % 0x1_0000_0000;
    (100 - product / contentLen) % 0x100
  }

  /** While the image is smaller than 2^32 / 100 bytes (about 42 MB), the
      percentage is the share already received, between 0 and 100. */
  lemma PercentageInRange(remaining: nat, contentLen: nat)
    requires 0 < remaining <= contentLen && contentLen * 100 < 0x1_0000_0000
    ensures Percentage(remaining, contentLen) <= 100
    ensures Percentage(remaining, contentLen) == 100 - remaining * 100 / contentLen
  {
    MulMono(remaining, contentLen, 100);
    assert (remaining * 100) % 0x1_0000_0000 == remaining * 100;
    DivAtMost(remaining * 100, contentLen, 100);
  }

  lemma MulMono(x: nat, y: nat, z: nat)
    requires x <= y
    ensures x * z <= y * z
  {
    assert (y - x) * z >= 0;
  }

  lemma DivAtMost(a: nat, b: nat, c: nat)
    requires b > 0 && a <= b * c
    ensures a / b <= c
  {
    var q := a / b;
    assert q * b <= a;
    MulCancel(q, c, b);
  }

  lemma MulCancel(x: nat, y: nat, z: nat)
    requires z > 0 && x * z <= y * z
    ensures x <= y
  {
    assert (x - y) * z <= 0;
  }

  /** "Working (%d%%)". */
  function WorkingStatus(p: byte): string
  {
    "Working (" + NatToString(p) + "%)"
  }

  /** The fixed status texts the handlers set. */
  const FIXED_STATUSES: set<string> := {
    "Starting...", "Protocol Error", "Write Error", "Finished...", "Validation Error", "Rebooting..."
  }

  /** A status an update handler can set: a fixed text or a `uint8_t` percentage. */
  ghost predicate KnownStatus(s: string)
  {
    s in FIXED_STATUSES || exists p: byte :: s == WorkingStatus(p)
  }

  /** Every status fits the 20-byte buffer `snprintf` writes it into, NUL
      included, so none is cut short. */
  lemma KnownStatusFits(s: string)
    requires KnownStatus(s)
    ensures |s| < 20
  {
    if s !in FIXED_STATUSES {
      var p: byte :| s == WorkingStatus(p);
      NatToStringShape(p as nat);
    }
  }

  // ---------------------------------------------------------------------------
  // Global state

  /** The update fields of `GLOBAL_STATE->SYSTEM_MODULE`, read by the UI while an
      update runs. `statusHistory` records every status set, in order. */
  class SystemModule {
    var isFirmwareUpdate: bool
    var firmwareUpdateFilename: string
    var firmwareUpdateStatus: string
    ghost var statusHistory: seq<string>

    constructor()
      ensures !isFirmwareUpdate && firmwareUpdateFilename == "" && firmwareUpdateStatus == ""
      ensures statusHistory == []
    {
      isFirmwareUpdate := false;
      firmwareUpdateFilename := "";
      firmwareUpdateStatus := "";
      statusHistory := [];
    }

    /** The three assignments at the start of an update. */
    method StartUpdate(filename: string)
      modifies this
      ensures isFirmwareUpdate && firmwareUpdateFilename == filename
      ensures firmwareUpdateStatus == "Starting..."
      ensures statusHistory == old(statusHistory) + ["Starting..."]
    {
      isFirmwareUpdate := true;
      firmwareUpdateFilename := filename;
      firmwareUpdateStatus := "Starting...";
      statusHistory := statusHistory + ["Starting..."];
    }

    method SetStatus(s: string)
      modifies this
      ensures firmwareUpdateStatus == s && statusHistory == old(statusHistory) + [s]
      ensures isFirmwareUpdate == old(isFirmwareUpdate)
      ensures firmwareUpdateFilename == old(firmwareUpdateFilename)
    {
      firmwareUpdateStatus := s;
      statusHistory := statusHistory + [s];
    }

    method EndUpdate()
      modifies this
      ensures !isFirmwareUpdate
      ensures firmwareUpdateStatus == old(firmwareUpdateStatus)
      ensures firmwareUpdateFilename == old(firmwareUpdateFilename)
      ensures statusHistory == old(statusHistory)
    {
      isFirmwareUpdate := false;
    }
  }

  /** The statuses set on top of `before` keep it as their prefix and are all
      known ones. */
  ghost predicate KnownAfter(history: seq<string>, before: seq<string>)
  {
    |before| <= |history| && history[..|before|] == before
    && forall i :: |before| <= i < |history| ==> KnownStatus(history[i])
  }

  lemma KnownAfterStep(history: seq<string>, before: seq<string>, s: string)
    requires KnownAfter(history, before) && KnownStatus(s)
    ensures KnownAfter(history + [s], before)
  {
    assert (history + [s])[..|before|] == history[..|before|];
  }

  lemma KnownAfterTrans(h2: seq<string>, h1: seq<string>, h0: seq<string>)
    requires KnownAfter(h2, h1) && KnownAfter(h1, h0)
    ensures KnownAfter(h2, h0)
  {
    assert h2[..|h0|] == h2[..|h1|][..|h0|];
  }

  /** The update flag and file name are `flag` and `name`, and every status set
      on top of `before` is a known one. */
  ghost predicate Running(sys: SystemModule, flag: bool, name: string, before: seq<string>)
    reads sys
  {
    sys.isFirmwareUpdate == flag && sys.firmwareUpdateFilename == name && KnownAfter(sys.statusHistory, before)
  }

  /** Sets a status the handlers use, keeping the statuses since `before` known. */
  method SetKnownStatus(sys: SystemModule, s: string, ghost before: seq<string>)
    requires KnownStatus(s) && KnownAfter(sys.statusHistory, before)
    modifies sys
    ensures sys.firmwareUpdateStatus == s
    ensures Running(sys, old(sys.isFirmwareUpdate), old(sys.firmwareUpdateFilename), before)
  {
    ghost var history := sys.statusHistory;
    sys.SetStatus(s);
    KnownAfterStep(history, before, s);
  }

  /** The progress status the receive loops set after each successful write. */
  method ReportProgress(sys: SystemModule, remaining: nat, contentLen: nat, ghost before: seq<string>)
    requires contentLen > 0 && KnownAfter(sys.statusHistory, before)
    modifies sys
    ensures KnownStatus(sys.firmwareUpdateStatus)
    ensures Running(sys, old(sys.isFirmwareUpdate), old(sys.firmwareUpdateFilename), before)
  {
    var p := Percentage(remaining, contentLen);
    SetKnownStatus(sys, WorkingStatus(p), before);
  }

  /** How a request to an update handler ends. */
  datatype Outcome =
    | Refused             // the gate said no: 401
    | ApMode              // the device runs an access point: 500
    | PartitionMissing    // no "www" partition: 500
    | TooLarge            // the body is larger than the partition: 400
    | Panicked            // an ESP_ERROR_CHECK failed; the device resets
    | ProtocolError       // a receive failed: 500
    | WriteError          // a flash write failed: 500
    | ValidationError     // the OTA image was rejected: 500
    | Completed           // the update is in place
  {
    /** Past the gate and the mode check: the update was marked as running. */
    predicate Started()
    {
      !Refused? && !ApMode?
    }

    /** The image was streamed: the erase or the begin succeeded. */
    predicate Streamed()
    {
      ProtocolError? || WriteError? || ValidationError? || Completed?
    }
  }

  const WWW_DONE: string := "WWW update complete\n"
  const OTA_DONE: string := "Firmware update complete, rebooting now!\n"

  /** The response an update handler gives for each outcome; `done` is its
      success message. A panic resets the device before anything is sent. */
  function Answer(outcome: Outcome, done: string): (r: seq<Event>)
    ensures r == [] <==> outcome == Panicked
    ensures r != [] ==> Complete(r)
    ensures outcome == Completed ==> r == [Send(done)]
    ensures outcome.Started() && outcome != Completed && r != [] ==> r[0].SendErr? && r[0].code in {400, 500}
  {
    match outcome
    case Refused => UNAUTHORIZED
    case ApMode => [SendErr(500, "Not allowed in AP mode")]
    case PartitionMissing => [SendErr(500, "WWW partition not found")]
    case TooLarge => [SendErr(400, "File provided is too large for device")]
    case Panicked => []
    case ProtocolError => [SendErr(500, "Protocol Error")]
    case WriteError => [SendErr(500, "Write Error")]
    case ValidationError => [SendErr(500, "Validation / Activation Error")]
    case Completed => [Send(done)]
  }

  /** The status an update leaves once started; `done` is the handler's last one. */
  function FinalStatus(outcome: Outcome, done: string): (s: string)
    ensures done in FIXED_STATUSES ==> KnownStatus(s)
  {
    match outcome
    case ProtocolError => "Protocol Error"
    case WriteError => "Write Error"
    case ValidationError => "Validation Error"
    case Completed => done
    case _ => "Starting..."
  }

  /** The Wi-Fi modes; an update is refused while an access point runs. */
  datatype WifiMode = WifiNull | Station | AccessPoint | AccessPointStation

  predicate ApRunning(mode: WifiMode)
  {
    mode == AccessPoint || mode == AccessPointStation
  }

  // ---------------------------------------------------------------------------
  // The web-application partition

  /** One flash operation on the partition, and whether it succeeded. */
  datatype FlashOp = Erase(offset: nat, len: nat, eraseOk: bool) | Write(offset: nat, len: nat, ok: bool)

  /** `s` with `bytes` put in place from `offset`. */
  function Overwrite(s: seq<byte>, offset: nat, bytes: seq<byte>): (r: seq<byte>)
    requires offset + |bytes| <= |s|
    ensures |r| == |s|
    ensures forall i :: 0 <= i < |s| ==> r[i] == if offset <= i < offset + |bytes| then bytes[i - offset] else s[i]
  {
    s[..offset] + bytes + s[offset + |bytes|..]
  }

  /** `n` bytes of erased flash. */
  function Erased(n: nat): seq<byte>
  {
    seq(n, _ => 0xFF)
  }

  /** A SPIFFS data partition: `data` is its flash content. */
  class Partition {
    const size: nat
    const data: array<byte>

    constructor(size: nat, init: seq<byte>)
      requires |init| == size
      ensures Valid()
      ensures this.size == size && fresh(data) && data[..] == init
    {
      this.size := size;
      data := new byte[size](i requires 0 <= i < size reads {} => init[i]);
    }

    ghost predicate Valid()
      reads this
    {
      data.Length == size
    }

    /** `esp_partition_erase_range`. A failed erase is taken to leave the flash
        as it was. */
    method EraseRange(offset: nat, len: nat, ok: bool) returns (err: EspErr)
      requires Valid() && offset + len <= size
      modifies data
      ensures err == EspOk <==> ok
      ensures ok ==> data[..] == Overwrite(old(data[..]), offset, Erased(len))
      ensures !ok ==> unchanged(data)
    {
      if !ok {
        return EspFail;
      }
      forall i | offset <= i < offset + len {
        data[i] := 0xFF;
      }
      assert data[..] == Overwrite(old(data[..]), offset, Erased(len));
      return EspOk;
    }

    /** `esp_partition_write`. A failed write is taken to leave the flash as it was. */
    method Write(offset: nat, bytes: seq<byte>, ok: bool) returns (err: EspErr)
      requires Valid() && offset + |bytes| <= size
      modifies data
      ensures err == EspOk <==> ok
      ensures ok ==> data[..] == Overwrite(old(data[..]), offset, bytes)
      ensures !ok ==> unchanged(data)
    {
      if !ok {
        return EspFail;
      }
      forall i | offset <= i < offset + |bytes| {
        data[i] := bytes[i - offset];
      }
      assert data[..] == Overwrite(old(data[..]), offset, bytes);
      return EspOk;
    }
  }

  /** Successful writes that fill `[start, end)` back to back, in order. */
  predicate Contiguous(writes: seq<FlashOp>, start: nat, end: nat)
    decreases |writes|
  {
    if writes == [] then start == end
    else
      var w := writes[|writes| - 1];
      w.Write? && w.ok && w.len > 0 && w.offset + w.len == end && w.offset >= start
      && Contiguous(writes[..|writes| - 1], start, w.offset)
  }

  /** Contiguous writes are successful writes that stay inside their range,
      never overlap, and each starts where the one before it ended. */
  lemma {:induction false} ContiguousDisjoint(writes: seq<FlashOp>, start: nat, end: nat)
    requires Contiguous(writes, start, end)
    ensures start <= end
    ensures forall i :: 0 <= i < |writes| ==> writes[i].Write? && writes[i].ok
    ensures forall i :: 0 <= i < |writes| ==> start <= writes[i].offset && writes[i].offset + writes[i].len <= end
    ensures forall i, j :: 0 <= i < j < |writes| ==> writes[i].offset + writes[i].len <= writes[j].offset
    ensures forall i :: 0 < i < |writes| ==> writes[i - 1].offset + writes[i - 1].len == writes[i].offset
    ensures writes != [] ==> writes[0].offset == start
    decreases |writes|
  {
    if writes != [] {
      var init := writes[..|writes| - 1];
      var w := writes[|writes| - 1];
      ContiguousDisjoint(init, start, w.offset);
      assert forall i :: 0 <= i < |init| ==> writes[i] == init[i];
    }
  }

  /** Contiguous writes cover their whole range: their lengths add up to it. */
  lemma {:induction false} ContiguousCovers(writes: seq<FlashOp>, start: nat, end: nat)
    requires Contiguous(writes, start, end)
    ensures TotalLength(writes) == end - start
    decreases |writes|
  {
    if writes != [] {
      ContiguousCovers(writes[..|writes| - 1], start, writes[|writes| - 1].offset);
    }
  }

  function TotalLength(writes: seq<FlashOp>): nat
    decreases |writes|
  {
    if writes == [] then 0
    else TotalLength(writes[..|writes| - 1]) + (if writes[|writes| - 1].Write? then writes[|writes| - 1].len else 0)
  }

  /** The partition once the first `written` bytes of `image` are in place from
      `start`, on erased flash. */
  ghost function Image(size: nat, start: nat, image: seq<byte>, written: nat): (r: seq<byte>)
    requires written <= |image|
    ensures |r| == size
  {
    seq(size, i => if start <= i < start + written then image[i - start] else 0xFF)
  }

  /** Nothing written yet: the partition reads as erased. */
  lemma ErasedImage(size: nat, start: nat, image: seq<byte>, previous: seq<byte>)
    requires |previous| == size
    ensures Overwrite(previous, 0, Erased(size)) == Image(size, start, image, 0)
  {
    assert forall i :: 0 <= i < size ==> Overwrite(previous, 0, Erased(size))[i] == 0xFF;
  }

  /** Writing the next `len` image bytes at the next offset extends the image in
      place by `len` bytes. */
  lemma ImageStep(size: nat, start: nat, image: seq<byte>, written: nat, len: nat)
    requires written + len <= |image| && start + |image| <= size
    ensures Overwrite(Image(size, start, image, written), start + written, image[written..written + len])
      == Image(size, start, image, written + len)
  {
    var before := Image(size, start, image, written);
    var after := Overwrite(before, start + written, image[written..written + len]);
    forall i | 0 <= i < size
      ensures after[i] == Image(size, start, image, written + len)[i]
    {
      if start + written <= i < start + written + len {
        assert after[i] == image[written..written + len][i - start - written];
      }
    }
  }

  /** One write of the WWW loop: the next `len` image bytes at the next offset. */
  method WriteNext(www: Partition, start: nat, image: seq<byte>, written: nat, len: nat, ok: bool)
    returns (err: EspErr)
    requires www.Valid() && written + len <= |image| && start + |image| <= www.size
    requires www.data[..] == Image(www.size, start, image, written)
    modifies www.data
    ensures err == EspOk <==> ok
    ensures ok ==> www.data[..] == Image(www.size, start, image, written + len)
    ensures !ok ==> unchanged(www.data)
  {
    err := www.Write(start + written, image[written..written + len], ok);
    if ok {
      ImageStep(www.size, start, image, written, len);
    }
  }

  /** One piece of the WWW loop: the `len` bytes just received, with `remaining`
      outstanding, are written at the next offset and recorded in `writes`; then
      the progress, or the write error, is reported. */
  method WritePiece(www: Partition, sys: SystemModule, body: seq<byte>, remaining: nat, received: nat, len: nat,
                    ok: bool, writes: seq<FlashOp>, ghost flag: bool, ghost name: string, ghost before: seq<string>)
    returns (err: EspErr, writes': seq<FlashOp>)
    requires www.Valid() && |body| <= www.size && 0 < len <= remaining && received + remaining == |body|
    requires Contiguous(writes, www.size - |body|, www.size - |body| + received)
    requires www.data[..] == Image(www.size, www.size - |body|, body, received)
    requires Running(sys, flag, name, before)
    modifies www.data, sys
    ensures err == EspOk <==> ok
    ensures writes' == writes + [Write(www.size - remaining, len, ok)]
    ensures ok ==> Contiguous(writes', www.size - |body|, www.size - |body| + (received + len))
    ensures ok ==> www.data[..] == Image(www.size, www.size - |body|, body, received + len)
    ensures !ok ==> StreamedWrites(WriteError, writes', www.size - |body|, received)
    ensures !ok ==> www.data[..] == Image(www.size, www.size - |body|, body, received)
    ensures !ok ==> sys.firmwareUpdateStatus == "Write Error"
    ensures Running(sys, flag, name, before)
  {
    var offset := www.size - remaining;
    err := WriteNext(www, www.size - |body|, body, received, len, ok);
    writes' := writes + [Write(offset, len, ok)];
    assert writes'[..|writes|] == writes;
    if err != EspOk {
      SetKnownStatus(sys, "Write Error", before);
    } else {
      ReportProgress(sys, remaining, |body|, before);
    }
  }

  /** The writes of the WWW receive loop: back to back from `start`, covering the
      `written` bytes in place, and after a write error the failed write at the
      next offset. */
  predicate StreamedWrites(outcome: Outcome, writes: seq<FlashOp>, start: nat, written: nat)
  {
    if outcome == WriteError then
      |writes| >= 1 && Contiguous(writes[..|writes| - 1], start, start + written)
      && writes[|writes| - 1].Write? && !writes[|writes| - 1].ok && writes[|writes| - 1].offset == start + written
    else Contiguous(writes, start, start + written)
  }

  /** The partition after a successful whole erase and the streaming that
      followed: the erase, then the writes; the first `written` bytes of the
      image in place, right-aligned, the rest erased; all of it on completion. */
  ghost predicate Flashed(outcome: Outcome, ops: seq<FlashOp>, data: seq<byte>, size: nat, image: seq<byte>, written: nat)
  {
    written <= |image| <= size
    && |ops| >= 1 && ops[0] == Erase(0, size, true)
    && StreamedWrites(outcome, ops[1..], size - |image|, written)
    && data == Image(size, size - |image|, image, written)
    && (outcome == Completed ==> written == |image|)
  }

  /** The flash operations of a streamed WWW update: the one erase of the whole
      partition comes first, then only writes, none after a failed one; every
      successful write lies inside the image's range at the end of the
      partition, and on completion their lengths add up to the image. */
  lemma FlashedLayout(outcome: Outcome, ops: seq<FlashOp>, data: seq<byte>, size: nat, image: seq<byte>, written: nat)
    requires Flashed(outcome, ops, data, size, image, written)
    ensures ops[0] == Erase(0, size, true)
    ensures forall i :: 1 <= i < |ops| ==> ops[i].Write?
    ensures forall i :: 1 <= i < |ops| - 1 ==> ops[i].ok
    ensures forall i :: 1 <= i < |ops| && ops[i].ok ==> size - |image| <= ops[i].offset && ops[i].offset + ops[i].len <= size
    ensures outcome == Completed ==> TotalLength(ops[1..]) == |image|
  {
    var start := size - |image|;
    var writes := ops[1..];
    if outcome == WriteError {
      var done := writes[..|writes| - 1];
      ContiguousDisjoint(done, start, start + written);
      assert forall i :: 1 <= i < |ops| - 1 ==> ops[i] == done[i - 1];
    } else {
      ContiguousDisjoint(writes, start, start + written);
      assert forall i :: 1 <= i < |ops| ==> ops[i] == writes[i - 1];
      if outcome == Completed {
        ContiguousCovers(writes, start, size);
      }
    }
  }

  /** `count` writes were issued, and write call `i` succeeded as `writeOk(i)`
      says. */
  predicate WritesOf(count: nat, writes: seq<FlashOp>, writeOk: nat -> bool)
  {
    |writes| == count && forall i :: 0 <= i < |writes| ==> writes[i].Write? && writes[i].ok == writeOk(i)
  }

  /** One positive receive of the WWW loop: receive call `call` delivered `n`
      bytes with `remaining` outstanding; the bytes taken are written and the
      loop state advanced as the run of its definition does. */
  method StreamPiece(www: Partition, sys: SystemModule, body: seq<byte>, recv: nat -> int, writeOk: nat -> bool,
                     ghost bound: nat, ghost start: nat, ghost run: Run, ghost call: nat, n: int,
                     remaining: nat, received: nat, writes: seq<FlashOp>, w: nat,
                     ghost flag: bool, ghost name: string, ghost before: seq<string>)
    returns (err: EspErr, remaining': nat, received': nat, writes': seq<FlashOp>, w': nat)
    requires TimeoutsEnd(recv, bound) && n == recv(call) && n > 0 && remaining > 0
    requires www.Valid() && start + |body| == www.size && received + remaining == |body| && w == |writes|
    requires Contiguous(writes, start, start + received)
    requires www.data[..] == Image(www.size, start, body, received)
    requires run == Then(received, w, StreamRun(recv, writeOk, bound, remaining, call, w))
    requires Running(sys, flag, name, before)
    modifies www.data, sys
    ensures err == EspOk <==> writeOk(w)
    ensures err == EspOk ==> remaining' < remaining && remaining' + received' == |body| && w' == |writes'|
    ensures err == EspOk ==> Contiguous(writes', start, start + received')
    ensures err == EspOk ==> www.data[..] == Image(www.size, start, body, received')
    ensures err == EspOk ==> run == Then(received', w', StreamRun(recv, writeOk, bound, remaining', call + 1, w'))
    ensures err != EspOk ==> StreamedWrites(WriteError, writes', start, received)
    ensures err != EspOk ==> www.data[..] == Image(www.size, start, body, received)
    ensures err != EspOk ==> sys.firmwareUpdateStatus == "Write Error"
    ensures err != EspOk ==> run == Run(WriteError, received, |writes'|)
    ensures Running(sys, flag, name, before)
  {
    var len := Taken(n, Ask(remaining));
    var ok := writeOk(w);
    if ok {
      RunStep(run, recv, writeOk, bound, remaining, call, w, received, len);
    } else {
      RunWriteFailed(run, recv, writeOk, bound, remaining, call, w, received);
    }
    err, writes' := WritePiece(www, sys, body, remaining, received, len, ok, writes, flag, name, before);
    remaining', received', w' := remaining - len, received + len, w + 1;
  }

  /** The state of the WWW loop before receive call `k`: `received` bytes of
      `body` written back to back from `start` and in place, `remaining` still
      to come, and what is left of the run after the `w` writes made so far. */
  ghost predicate WwwLoop(data: seq<byte>, start: nat, body: seq<byte>, recv: nat -> int, writeOk: nat -> bool,
                          bound: nat, run: Run, k: nat, remaining: nat, received: nat, writes: seq<FlashOp>, w: nat)
  {
    TimeoutsEnd(recv, bound) && received + remaining == |body| && w == |writes|
    && start + |body| == |data| && Contiguous(writes, start, start + received)
    && data == Image(|data|, start, body, received)
    && run == Then(received, w, StreamRun(recv, writeOk, bound, remaining, k, w))
  }

  /** One pass of the WWW loop from receive call `k`: a timeout is retried, a
      failed receive ends it with a protocol error, and received bytes are
      written as `StreamPiece` does; `stop` is the outcome when the loop ends. */
  method ReceiveNext(www: Partition, sys: SystemModule, body: seq<byte>, recv: nat -> int, writeOk: nat -> bool,
                     ghost bound: nat, ghost start: nat, ghost run: Run,
                     k: nat, remaining: nat, received: nat, writes: seq<FlashOp>, w: nat,
                     ghost flag: bool, ghost name: string, ghost before: seq<string>)
    returns (stop: Option<Outcome>, k': nat, remaining': nat, received': nat, writes': seq<FlashOp>, w': nat)
    requires remaining > 0 && www.Valid()
    requires WwwLoop(www.data[..], start, body, recv, writeOk, bound, run, k, remaining, received, writes, w)
    requires run == StreamRun(recv, writeOk, bound, |body|, 0, 0)
    requires Running(sys, flag, name, before)
    modifies www.data, sys
    ensures stop.None? ==> WwwLoop(www.data[..], start, body, recv, writeOk, bound, run, k', remaining', received', writes', w')
    ensures stop.None? ==> remaining' < remaining || (remaining' == remaining && k < bound && k' == k + 1)
    ensures stop == Some(ProtocolError) ==> !NeverFails(recv)
    ensures stop == Some(WriteError) ==> !writeOk(w)
    ensures stop.Some? ==> stop.value == ProtocolError || stop.value == WriteError
    ensures stop.Some? ==> received' == received
    ensures stop.Some? ==> StreamedWrites(stop.value, writes', start, received')
    ensures stop.Some? ==> www.data[..] == Image(www.size, start, body, received')
    ensures stop.Some? ==> sys.firmwareUpdateStatus == FinalStatus(stop.value, "")
    ensures stop.Some? ==> WwwRun(recv, writeOk, bound, |body|, stop.value, writes', received')
    ensures Running(sys, flag, name, before)
  {
    var n := recv(k);
    if n == HTTPD_SOCK_ERR_TIMEOUT {
      RunTimeout(run, recv, writeOk, bound, remaining, k, w, received);
      return None, k + 1, remaining, received, writes, w;
    } else if n <= 0 {
      RunReceiveFailed(run, recv, writeOk, bound, remaining, k, w, received);
      WritesOfRun(recv, writeOk, bound, |body|, ProtocolError, writes, received, www.size);
      SetKnownStatus(sys, "Protocol Error", before);
      return Some(ProtocolError), k + 1, remaining, received, writes, w;
    }
    var err;
    err, remaining', received', writes', w' :=
      StreamPiece(www, sys, body, recv, writeOk, bound, start, run, k, n, remaining, received, writes, w,
                  flag, name, before);
    k' := k + 1;
    if err != EspOk {
      WritesOfRun(recv, writeOk, bound, |body|, WriteError, writes', received, www.size);
      return Some(WriteError), k', remaining, received, writes', w;
    }
    stop := None;
  }

  /** The WWW loop over `total` bytes ended as the run of its definition does:
      the same outcome, the same bytes written, the same write calls. */
  ghost predicate WwwRun(recv: nat -> int, writeOk: nat -> bool, bound: nat, total: nat,
                         outcome: Outcome, writes: seq<FlashOp>, received: nat)
    requires TimeoutsEnd(recv, bound)
  {
    var run := StreamRun(recv, writeOk, bound, total, 0, 0);
    outcome == run.outcome && received == run.received && WritesOf(run.writes, writes, writeOk)
  }

  /** Writes as many as a run's, successful but for a failing last one on a
      write error, have the flags the run's write calls give them. */
  lemma WritesOfRun(recv: nat -> int, writeOk: nat -> bool, bound: nat, total: nat,
                    outcome: Outcome, writes: seq<FlashOp>, received: nat, size: nat)
    requires TimeoutsEnd(recv, bound) && total <= size
    requires StreamedWrites(outcome, writes, size - total, received)
    requires StreamRun(recv, writeOk, bound, total, 0, 0) == Run(outcome, received, |writes|)
    ensures WwwRun(recv, writeOk, bound, total, outcome, writes, received)
  {
    RunWrites(recv, writeOk, bound, total, 0, 0);
    var done := if outcome == WriteError then writes[..|writes| - 1] else writes;
    ContiguousDisjoint(done, size - total, size - total + received);
    assert forall i :: 0 <= i < |done| ==> writes[i] == done[i];
  }

  /** The receive-and-write loop of `POST_WWW_update`, on a partition erased whole.
      Receive call `k` returns `recv(k)`; write call `k` succeeds when
      `writeOk(k)`. `received` is the number of bytes written. */
  method StreamToPartition(www: Partition, sys: SystemModule, contentLen: nat, body: seq<byte>,
                           recv: nat -> int, ghost bound: nat, writeOk: nat -> bool)
    returns (outcome: Outcome, writes: seq<FlashOp>, received: nat)
    requires www.Valid() && contentLen <= www.size <= MAX_PARTITION_SIZE && |body| == contentLen
    requires www.data[..] == Image(www.size, www.size - contentLen, body, 0)
    requires TimeoutsEnd(recv, bound)
    modifies www.data, sys
    ensures outcome == ProtocolError || outcome == WriteError || outcome == Completed
    ensures received <= contentLen && (outcome == Completed ==> received == contentLen)
    ensures StreamedWrites(outcome, writes, www.size - contentLen, received)
    ensures www.data[..] == Image(www.size, www.size - contentLen, body, received)
    ensures outcome != Completed ==> sys.firmwareUpdateStatus == FinalStatus(outcome, "")
    ensures NeverFails(recv) && (forall k :: writeOk(k)) ==> outcome == Completed
    ensures WwwRun(recv, writeOk, bound, contentLen, outcome, writes, received)
    ensures Running(sys, old(sys.isFirmwareUpdate), old(sys.firmwareUpdateFilename), old(sys.statusHistory))
  {
    var remaining: nat := contentLen;
    writes := [];
    received := 0;
    var k: nat := 0;
    var w: nat := 0;
    ghost var run := StreamRun(recv, writeOk, bound, contentLen, 0, 0);
    while remaining > 0
      invariant WwwLoop(www.data[..], www.size - contentLen, body, recv, writeOk, bound, run, k, remaining, received, writes, w)
      invariant Running(sys, old(sys.isFirmwareUpdate), old(sys.firmwareUpdateFilename), old(sys.statusHistory))
      decreases remaining, if k < bound then bound - k else 0
    {
      var stop;
      stop, k, remaining, received, writes, w :=
        ReceiveNext(www, sys, body, recv, writeOk, bound, www.size - contentLen, run, k, remaining, received, writes, w,
                    old(sys.isFirmwareUpdate), old(sys.firmwareUpdateFilename), old(sys.statusHistory));
      if stop.Some? {
        return stop.value, writes, received;
      }
    }
    RunCompleted(run, recv, writeOk, bound, k, w, received);
    WritesOfRun(recv, writeOk, bound, contentLen, Completed, writes, received, www.size);
    return Completed, writes, received;
  }

  /** The part of `POST_WWW_update` after its checks: erase the whole partition,
      stream the image into it, and report. `ops` are the flash operations, in
      order, and `written` the number of image bytes in place. */
  method EraseAndStream(sys: SystemModule, www: Partition, contentLen: nat, body: seq<byte>,
                        recv: nat -> int, ghost bound: nat, eraseOk: bool, writeOk: nat -> bool)
    returns (outcome: Outcome, ops: seq<FlashOp>, ghost written: nat)
    requires www.Valid() && contentLen <= www.size <= MAX_PARTITION_SIZE && |body| == contentLen
    requires TimeoutsEnd(recv, bound)
    modifies sys, www.data
    ensures outcome == Panicked || (outcome.Streamed() && outcome != ValidationError)
    ensures outcome == Panicked <==> !eraseOk
    ensures outcome == Panicked ==> ops == [Erase(0, www.size, false)] && unchanged(sys) && unchanged(www.data)
    ensures outcome.Streamed() ==> Flashed(outcome, ops, www.data[..], www.size, body, written)
    ensures outcome.Streamed() ==> sys.firmwareUpdateStatus == FinalStatus(outcome, "Finished...")
    ensures outcome.Streamed() ==> WwwRun(recv, writeOk, bound, contentLen, outcome, ops[1..], written)
    ensures sys.isFirmwareUpdate == (old(sys.isFirmwareUpdate) && outcome != Completed)
    ensures sys.firmwareUpdateFilename == old(sys.firmwareUpdateFilename)
    ensures KnownAfter(sys.statusHistory, old(sys.statusHistory))
    ensures eraseOk && NeverFails(recv) && (forall k :: writeOk(k)) ==> outcome == Completed
  {
    ghost var blank := www.data[..];
    var err := www.EraseRange(0, www.size, eraseOk);
    if err != EspOk {
      return Panicked, [Erase(0, www.size, false)], 0;
    }
    ErasedImage(www.size, www.size - contentLen, body, blank);
    var writes: seq<FlashOp>;
    var received: nat;
    outcome, writes, received := StreamToPartition(www, sys, contentLen, body, recv, bound, writeOk);
    ops := [Erase(0, www.size, true)] + writes;
    written := received;
    assert ops[1..] == writes;
    if outcome == Completed {
      SetKnownStatus(sys, "Finished...", old(sys.statusHistory));
      sys.EndUpdate();
    }
  }

  /** The part of `POST_WWW_update` after the update has started: the partition
      lookup, the size check, then erase and stream. */
  method WwwAfterStart(sys: SystemModule, www: Partition, found: bool, contentLen: u32, body: seq<byte>,
                       recv: nat -> int, ghost bound: nat, eraseOk: bool, writeOk: nat -> bool)
    returns (outcome: Outcome, ops: seq<FlashOp>, ghost written: nat)
    requires www.Valid() && www.size <= MAX_PARTITION_SIZE && |body| == contentLen
    requires TimeoutsEnd(recv, bound)
    modifies sys, www.data
    ensures outcome.Started() && outcome != ValidationError
    ensures outcome == PartitionMissing <==> !found
    ensures outcome == TooLarge <==> found && contentLen > www.size
    ensures outcome == Panicked <==> found && contentLen <= www.size && !eraseOk
    ensures !outcome.Streamed() ==>
      unchanged(sys) && unchanged(www.data) && ops == if outcome == Panicked then [Erase(0, www.size, false)] else []
    ensures outcome.Streamed() ==>
      Flashed(outcome, ops, www.data[..], www.size, body, written)
      && sys.firmwareUpdateStatus == FinalStatus(outcome, "Finished...")
    ensures outcome.Streamed() ==> WwwRun(recv, writeOk, bound, contentLen, outcome, ops[1..], written)
    ensures sys.isFirmwareUpdate == (old(sys.isFirmwareUpdate) && outcome != Completed)
    ensures sys.firmwareUpdateFilename == old(sys.firmwareUpdateFilename)
    ensures KnownAfter(sys.statusHistory, old(sys.statusHistory))
    ensures (found && contentLen <= www.size && eraseOk && NeverFails(recv) && (forall k :: writeOk(k))) ==>
      outcome == Completed
  {
    if !found {
      return PartitionMissing, [], 0;
    }
    // `remaining > www_partition->size` compares as unsigned, so `remaining`
    // stands for `content_len` itself here.
    if contentLen > www.size {
      return TooLarge, [], 0;
    }
    outcome, ops, written := EraseAndStream(sys, www, contentLen, body, recv, bound, eraseOk, writeOk);
  }

  /** `POST_WWW_update`. `found` says whether the "www" partition exists; erasing it
      succeeds when `eraseOk`; receive call `k` returns `recv(k)`; write call `k`
      succeeds when `writeOk(k)`. `ops` are the flash operations, in order, and
      `written` the number of image bytes in place. */
  method PostWwwUpdate(sys: SystemModule, www: Partition, found: bool, apEnabled: bool, client: Client,
                       mode: WifiMode, contentLen: u32, body: seq<byte>, recv: nat -> int, ghost bound: nat,
                       eraseOk: bool, writeOk: nat -> bool)
    returns (events: seq<Event>, outcome: Outcome, ops: seq<FlashOp>, ghost written: nat)
    requires www.Valid() && www.size <= MAX_PARTITION_SIZE && |body| == contentLen
    requires TimeoutsEnd(recv, bound)
    modifies sys, www.data
    ensures events == Answer(outcome, WWW_DONE)
    ensures outcome == Refused <==> !Allowed(apEnabled, client)
    ensures outcome == ApMode <==> Allowed(apEnabled, client) && ApRunning(mode)
    ensures outcome == PartitionMissing <==> Allowed(apEnabled, client) && !ApRunning(mode) && !found
    ensures outcome == TooLarge <==> Allowed(apEnabled, client) && !ApRunning(mode) && found && contentLen > www.size
    ensures outcome == Panicked <==>
      Allowed(apEnabled, client) && !ApRunning(mode) && found && contentLen <= www.size && !eraseOk
    ensures outcome != ValidationError
    ensures !outcome.Started() ==> unchanged(sys)
    ensures !outcome.Streamed() ==> unchanged(www.data) && ops == if outcome == Panicked then [Erase(0, www.size, false)] else []
    ensures outcome.Started() ==>
      sys.firmwareUpdateFilename == "www.bin" && (sys.isFirmwareUpdate <==> outcome != Completed)
      && sys.firmwareUpdateStatus == FinalStatus(outcome, "Finished...")
      && KnownAfter(sys.statusHistory, old(sys.statusHistory) + ["Starting..."])
    ensures outcome.Streamed() ==> Flashed(outcome, ops, www.data[..], www.size, body, written)
    ensures outcome.Streamed() ==> WwwRun(recv, writeOk, bound, contentLen, outcome, ops[1..], written)
    ensures (Allowed(apEnabled, client) && !ApRunning(mode) && found && contentLen <= www.size && eraseOk
      && NeverFails(recv) && (forall k :: writeOk(k))) ==> outcome == Completed
  {
    if !Allowed(apEnabled, client) {
      return UNAUTHORIZED, Refused, [], 0;
    }
    if ApRunning(mode) {
      return [SendErr(500, "Not allowed in AP mode")], ApMode, [], 0;
    }
    sys.StartUpdate("www.bin");
    outcome, ops, written := WwwAfterStart(sys, www, found, contentLen, body, recv, bound, eraseOk, writeOk);
    events := Answer(outcome, WWW_DONE);
  }

  // ---------------------------------------------------------------------------
  // Over-the-air firmware update

  /** One call on the OTA API, and whether it succeeded. */
  datatype OtaOp =
    | Begin(beginOk: bool)
    | OtaWrite(len: nat, writeOk: bool)
    | Abort
    | End(endOk: bool)
    | SetBoot(bootOk: bool)
    | Restart

  /** Writes that all succeeded. */
  predicate OkWrites(ops: seq<OtaOp>)
  {
    forall i :: 0 <= i < |ops| ==> ops[i].OtaWrite? && ops[i].writeOk
  }

  /** The OTA API on the next update partition, with the device restart: `log`
      records the calls, `image` the bytes written through the open handle. */
  class OtaSession {
    var log: seq<OtaOp>
    var image: seq<byte>

    constructor()
      ensures log == [] && image == []
    {
      log := [];
      image := [];
    }

    /** `esp_ota_begin`. */
    method Begin(ok: bool) returns (err: EspErr)
      modifies this
      ensures err == EspOk <==> ok
      ensures log == old(log) + [OtaOp.Begin(ok)]
      ensures image == if ok then [] else old(image)
    {
      log := log + [OtaOp.Begin(ok)];
      if ok {
        image := [];
        return EspOk;
      }
      return EspFail;
    }

    /** `esp_ota_write`; a failed write adds nothing to the image. */
    method Write(bytes: seq<byte>, ok: bool) returns (err: EspErr)
      modifies this
      ensures err == EspOk <==> ok
      ensures log == old(log) + [OtaWrite(|bytes|, ok)]
      ensures image == if ok then old(image) + bytes else old(image)
    {
      log := log + [OtaWrite(|bytes|, ok)];
      if ok {
        image := image + bytes;
        return EspOk;
      }
      return EspFail;
    }

    /** `esp_ota_abort`. */
    method Abort()
      modifies this
      ensures log == old(log) + [OtaOp.Abort] && image == old(image)
    {
      log := log + [OtaOp.Abort];
    }

    /** `esp_ota_end`: validates the image. */
    method End(ok: bool) returns (err: EspErr)
      modifies this
      ensures err == EspOk <==> ok
      ensures log == old(log) + [OtaOp.End(ok)] && image == old(image)
    {
      log := log + [OtaOp.End(ok)];
      return if ok then EspOk else EspFail;
    }

    /** `esp_ota_set_boot_partition`. */
    method SetBootPartition(ok: bool) returns (err: EspErr)
      modifies this
      ensures err == EspOk <==> ok
      ensures log == old(log) + [OtaOp.SetBoot(ok)] && image == old(image)
    {
      log := log + [OtaOp.SetBoot(ok)];
      return if ok then EspOk else EspFail;
    }

    /** `esp_restart`. */
    method Restart()
      modifies this
      ensures log == old(log) + [OtaOp.Restart] && image == old(image)
    {
      log := log + [OtaOp.Restart];
    }
  }

  /** The OTA calls of the receive loop: successful writes, and after a failed
      write, the abort. */
  predicate StreamCalls(outcome: Outcome, ops: seq<OtaOp>)
  {
    if outcome == WriteError then
      |ops| >= 2 && OkWrites(ops[..|ops| - 2]) && ops[|ops| - 2].OtaWrite? && !ops[|ops| - 2].writeOk
      && ops[|ops| - 1] == Abort
    else OkWrites(ops)
  }

  /** The calls that end a fully received image: validate, then activate only
      once validated, then restart only once activated. */
  function ActivationCalls(endOk: bool, bootOk: bool): seq<OtaOp>
  {
    if !endOk then [End(false)]
    else if !bootOk then [End(true), SetBoot(false)]
    else [End(true), SetBoot(true), Restart]
  }

  /** The OTA calls after a successful begin, for each outcome of a streamed
      update. */
  predicate OtaTrace(outcome: Outcome, ops: seq<OtaOp>, endOk: bool, bootOk: bool)
  {
    match outcome
    case ProtocolError => OkWrites(ops)
    case WriteError => StreamCalls(WriteError, ops)
    case ValidationError =>
      !(endOk && bootOk) && var t := ActivationCalls(endOk, bootOk);
      |ops| >= |t| && OkWrites(ops[..|ops| - |t|]) && ops[|ops| - |t|..] == t
    case Completed =>
      endOk && bootOk && |ops| >= 3 && OkWrites(ops[..|ops| - 3]) && ops[|ops| - 3..] == ActivationCalls(true, true)
    case _ => false
  }

  /** Successful writes contain neither an abort nor a restart, so those show up
      only in what follows them. */
  lemma MarkersAfterWrites(writes: seq<OtaOp>, rest: seq<OtaOp>)
    requires OkWrites(writes)
    requires forall i :: 0 <= i < |rest| - 1 ==> rest[i] != OtaOp.Abort && rest[i] != OtaOp.Restart
    ensures OtaOp.Abort in writes + rest <==> OtaOp.Abort in rest
    ensures OtaOp.Restart in writes + rest <==> OtaOp.Restart in rest
    ensures forall i :: 0 <= i < |writes + rest| - 1 ==>
      (writes + rest)[i] != OtaOp.Abort && (writes + rest)[i] != OtaOp.Restart
  {
    var ops := writes + rest;
    assert forall x :: x in writes ==> x.OtaWrite?;
    assert forall i :: |writes| <= i < |ops| ==> ops[i] == rest[i - |writes|];
  }

  /** In the OTA calls after a successful begin, an abort appears exactly when a
      write failed, and a restart exactly when the update completed; either one
      is the last call, so it is made at most once. */
  lemma MarkersOfTrace(outcome: Outcome, ops: seq<OtaOp>, endOk: bool, bootOk: bool)
    requires OtaTrace(outcome, ops, endOk, bootOk)
    ensures OtaOp.Abort in ops <==> outcome == WriteError
    ensures OtaOp.Restart in ops <==> outcome == Completed
    ensures forall i :: 0 <= i < |ops| - 1 ==> ops[i] != OtaOp.Abort && ops[i] != OtaOp.Restart
  {
    var n := match outcome
      case WriteError => 2
      case ValidationError => |ActivationCalls(endOk, bootOk)|
      case Completed => 3
      case _ => 0;
    var writes, rest := ops[..|ops| - n], ops[|ops| - n..];
    assert ops == writes + rest;
    if outcome == WriteError {
      assert rest == [ops[|ops| - 2], OtaOp.Abort];
    }
    MarkersAfterWrites(writes, rest);
  }

  /** The OTA loop over `total` bytes ended as the run of its definition does:
      the same outcome, the same bytes written, and one OTA write per write call
      with the flag `writeOk` gives it, followed by the abort after a failed one. */
  ghost predicate OtaRun(recv: nat -> int, writeOk: nat -> bool, bound: nat, total: nat,
                         outcome: Outcome, ops: seq<OtaOp>, received: nat)
    requires TimeoutsEnd(recv, bound)
  {
    var run := StreamRun(recv, writeOk, bound, total, 0, 0);
    outcome == run.outcome && received == run.received
    && |ops| == run.writes + (if outcome == WriteError then 1 else 0)
    && forall i :: 0 <= i < run.writes ==> ops[i].OtaWrite? && ops[i].writeOk == writeOk(i)
  }

  /** OTA calls as many as a run's write calls, successful but for a failing last
      one on a write error, have the flags the run's write calls give them. */
  lemma OtaCallsOfRun(recv: nat -> int, writeOk: nat -> bool, bound: nat, total: nat,
                      outcome: Outcome, ops: seq<OtaOp>, received: nat, writes: nat)
    requires TimeoutsEnd(recv, bound)
    requires StreamCalls(outcome, ops) && writes == |ops| - (if outcome == WriteError then 1 else 0)
    requires StreamRun(recv, writeOk, bound, total, 0, 0) == Run(outcome, received, writes)
    ensures OtaRun(recv, writeOk, bound, total, outcome, ops, received)
  {
    RunWrites(recv, writeOk, bound, total, 0, 0);
    forall i | 0 <= i < writes
      ensures ops[i].OtaWrite? && ops[i].writeOk == writeOk(i)
    {
      if outcome == WriteError && i == writes - 1 {
        assert ops[i] == ops[|ops| - 2];
      } else if outcome == WriteError {
        assert ops[i] == ops[..|ops| - 2][i];
      }
    }
  }

  /** One positive receive of the OTA loop: receive call `call` delivered `n`
      bytes with `remaining` outstanding; the bytes taken are written through
      the session, a failed write is followed by the abort, and the loop state
      advances as the run of its definition does. */
  method OtaPiece(ota: OtaSession, sys: SystemModule, contentLen: nat, body: seq<byte>,
                  recv: nat -> int, writeOk: nat -> bool, ghost bound: nat, ghost run: Run, ghost call: nat, n: int,
                  remaining: nat, received: nat, ops: seq<OtaOp>, w: nat,
                  ghost log: seq<OtaOp>, ghost flag: bool, ghost name: string, ghost before: seq<string>)
    returns (err: EspErr, remaining': nat, received': nat, ops': seq<OtaOp>, w': nat)
    requires TimeoutsEnd(recv, bound) && n == recv(call) && n > 0 && remaining > 0
    requires received + remaining <= |body| && received + remaining <= contentLen
    requires ota.image == body[..received] && ota.log == log + ops && OkWrites(ops) && w == |ops|
    requires run == Then(received, w, StreamRun(recv, writeOk, bound, remaining, call, w))
    requires Running(sys, flag, name, before)
    modifies ota, sys
    ensures err == EspOk <==> writeOk(w)
    ensures received' <= received + remaining && ota.log == log + ops' && ota.image == body[..received']
    ensures err == EspOk ==> remaining' < remaining && remaining' + received' == remaining + received
    ensures err == EspOk ==> OkWrites(ops') && w' == |ops'|
    ensures err == EspOk ==> run == Then(received', w', StreamRun(recv, writeOk, bound, remaining', call + 1, w'))
    ensures err != EspOk ==> received' == received && StreamCalls(WriteError, ops')
    ensures err != EspOk ==> sys.firmwareUpdateStatus == "Write Error"
    ensures err != EspOk ==> run == Run(WriteError, received', |ops'| - 1)
    ensures Running(sys, flag, name, before)
  {
    var len := Taken(n, Ask(remaining));
    var ok := writeOk(w);
    var piece := body[received..received + len];
    if !ok {
      RunWriteFailed(run, recv, writeOk, bound, remaining, call, w, received);
      err := ota.Write(piece, ok);
      ota.Abort();
      ops' := ops + [OtaWrite(len, false), OtaOp.Abort];
      assert ops'[..|ops'| - 2] == ops;
      SetKnownStatus(sys, "Write Error", before);
      return err, remaining, received, ops', w;
    }
    RunStep(run, recv, writeOk, bound, remaining, call, w, received, len);
    err := ota.Write(piece, ok);
    ops' := ops + [OtaWrite(len, true)];
    assert body[..received] + piece == body[..received + len];
    ReportProgress(sys, remaining, contentLen, before);
    return err, remaining - len, received + len, ops', w + 1;
  }

  /** One pass of the OTA loop from receive call `k`: a timeout is retried, a
      failed receive ends it with a protocol error, and received bytes are
      written as `OtaPiece` does; `stop` is the outcome when the loop ends. */
  method OtaReceiveNext(ota: OtaSession, sys: SystemModule, contentLen: nat, body: seq<byte>,
                        recv: nat -> int, writeOk: nat -> bool, ghost bound: nat, ghost run: Run,
                        k: nat, remaining: nat, received: nat, ops: seq<OtaOp>, w: nat,
                        ghost log: seq<OtaOp>, ghost flag: bool, ghost name: string, ghost before: seq<string>)
    returns (stop: Option<Outcome>, k': nat, remaining': nat, received': nat, ops': seq<OtaOp>, w': nat)
    requires TimeoutsEnd(recv, bound) && remaining > 0 && received + remaining <= |body| && received + remaining <= contentLen
    requires ota.image == body[..received] && ota.log == log + ops && OkWrites(ops) && w == |ops|
    requires run == Then(received, w, StreamRun(recv, writeOk, bound, remaining, k, w))
    requires Running(sys, flag, name, before)
    modifies ota, sys
    ensures received' <= received + remaining && ota.log == log + ops' && ota.image == body[..received']
    ensures stop.None? ==> remaining' + received' == remaining + received && OkWrites(ops') && w' == |ops'|
    ensures stop.None? ==> remaining' < remaining || (remaining' == remaining && k < bound && k' == k + 1)
    ensures stop.None? ==> run == Then(received', w', StreamRun(recv, writeOk, bound, remaining', k', w'))
    ensures stop == Some(ProtocolError) ==> !NeverFails(recv)
    ensures stop == Some(WriteError) ==> !writeOk(w)
    ensures stop.Some? ==> stop.value == ProtocolError || stop.value == WriteError
    ensures stop.Some? ==> received' == received && StreamCalls(stop.value, ops')
    ensures stop.Some? ==> sys.firmwareUpdateStatus == FinalStatus(stop.value, "")
    ensures stop.Some? ==> run == Run(stop.value, received', |ops'| - if stop.value == WriteError then 1 else 0)
    ensures Running(sys, flag, name, before)
  {
    var n := recv(k);
    if n == HTTPD_SOCK_ERR_TIMEOUT {
      RunTimeout(run, recv, writeOk, bound, remaining, k, w, received);
      return None, k + 1, remaining, received, ops, w;
    } else if n <= 0 {
      RunReceiveFailed(run, recv, writeOk, bound, remaining, k, w, received);
      SetKnownStatus(sys, "Protocol Error", before);
      return Some(ProtocolError), k + 1, remaining, received, ops, w;
    }
    var err;
    err, remaining', received', ops', w' :=
      OtaPiece(ota, sys, contentLen, body, recv, writeOk, bound, run, k, n, remaining, received, ops, w,
               log, flag, name, before);
    k' := k + 1;
    stop := if err == EspOk then None else Some(WriteError);
  }

  /** The receive-and-write loop of `POST_OTA_update`, for `total` bytes of a
      body of `contentLen`. Receive call `k` returns `recv(k)`; write call `k`
      succeeds when `writeOk(k)`. `ops` are the OTA calls made. */
  method StreamToOta(ota: OtaSession, sys: SystemModule, total: nat, contentLen: nat, body: seq<byte>,
                     recv: nat -> int, ghost bound: nat, writeOk: nat -> bool)
    returns (outcome: Outcome, ops: seq<OtaOp>, received: nat)
    requires total <= |body| && total <= contentLen && ota.image == []
    requires TimeoutsEnd(recv, bound)
    modifies ota, sys
    ensures outcome == ProtocolError || outcome == WriteError || outcome == Completed
    ensures ota.log == old(ota.log) + ops && StreamCalls(outcome, ops)
    ensures received <= total && ota.image == body[..received] && (outcome == Completed ==> received == total)
    ensures outcome != Completed ==> sys.firmwareUpdateStatus == FinalStatus(outcome, "")
    ensures NeverFails(recv) && (forall k :: writeOk(k)) ==> outcome == Completed
    ensures OtaRun(recv, writeOk, bound, total, outcome, ops, received)
    ensures Running(sys, old(sys.isFirmwareUpdate), old(sys.firmwareUpdateFilename), old(sys.statusHistory))
  {
    var remaining: nat := total;
    ops := [];
    received := 0;
    var k: nat := 0;
    var w: nat := 0;
    ghost var run := StreamRun(recv, writeOk, bound, total, 0, 0);
    while remaining > 0
      invariant remaining + received == total
      invariant ota.image == body[..received]
      invariant ota.log == old(ota.log) + ops && OkWrites(ops)
      invariant w == |ops| && run == Then(received, w, StreamRun(recv, writeOk, bound, remaining, k, w))
      invariant Running(sys, old(sys.isFirmwareUpdate), old(sys.firmwareUpdateFilename), old(sys.statusHistory))
      decreases remaining, if k < bound then bound - k else 0
    {
      var stop;
      stop, k, remaining, received, ops, w :=
        OtaReceiveNext(ota, sys, contentLen, body, recv, writeOk, bound, run, k, remaining, received, ops, w,
                       old(ota.log), old(sys.isFirmwareUpdate), old(sys.firmwareUpdateFilename), old(sys.statusHistory));
      if stop.Some? {
        OtaCallsOfRun(recv, writeOk, bound, total, stop.value, ops, received, |ops| - if stop.value == WriteError then 1 else 0);
        return stop.value, ops, received;
      }
    }
    RunCompleted(run, recv, writeOk, bound, k, w, received);
    OtaCallsOfRun(recv, writeOk, bound, total, Completed, ops, received, w);
    return Completed, ops, received;
  }

  /** The bytes the OTA loop takes in: `int remaining = req->content_len` reads a
      length of 2^31 or more as negative, and then the loop does not run. */
  function OtaLength(contentLen: u32): (n: nat)
    ensures contentLen < 0x8000_0000 ==> n == contentLen
    ensures contentLen >= 0x8000_0000 ==> n == 0
  {
    var remaining := ToInt32(contentLen);
    if remaining > 0 then remaining else 0
  }

  /** The end of `POST_OTA_update`: `esp_ota_end(...) != ESP_OK ||
      esp_ota_set_boot_partition(...) != ESP_OK`, so the image is activated only
      once validated, and the device restarts only once it is activated. `tail`
      are the OTA calls made. */
  method Activate(sys: SystemModule, ota: OtaSession, endOk: bool, bootOk: bool)
    returns (outcome: Outcome, tail: seq<OtaOp>)
    modifies sys, ota
    ensures tail == ActivationCalls(endOk, bootOk)
    ensures ota.log == old(ota.log) + tail && ota.image == old(ota.image)
    ensures outcome == if endOk && bootOk then Completed else ValidationError
    ensures sys.firmwareUpdateStatus == FinalStatus(outcome, "Rebooting...")
    ensures Running(sys, old(sys.isFirmwareUpdate), old(sys.firmwareUpdateFilename), old(sys.statusHistory))
  {
    var endErr := ota.End(endOk);
    tail := [OtaOp.End(endOk)];
    var activated := endErr == EspOk;
    if activated {
      var bootErr := ota.SetBootPartition(bootOk);
      tail := tail + [OtaOp.SetBoot(bootOk)];
      activated := bootErr == EspOk;
    }
    ghost var history := sys.statusHistory;
    assert KnownAfter(history, history);
    if !activated {
      SetKnownStatus(sys, "Validation Error", history);
      return ValidationError, tail;
    }
    SetKnownStatus(sys, "Rebooting...", history);
    ota.Restart();
    tail := tail + [OtaOp.Restart];
    outcome := Completed;
  }

  /** The bytes passed to successful writes are the start of the image, all
      `total` of them once the image was received. */
  ghost predicate ImageReceived(outcome: Outcome, written: seq<byte>, image: seq<byte>, total: nat)
  {
    total <= |image| && |written| <= total && written == image[..|written|]
    && (outcome == ValidationError || outcome == Completed ==> |written| == total)
  }

  /** An OTA update that streamed: the successful begin, then the calls of
      `OtaTrace`, with the image received as `ImageReceived` says. */
  ghost predicate OtaStreamed(outcome: Outcome, ops: seq<OtaOp>, written: seq<byte>, image: seq<byte>, total: nat,
                              endOk: bool, bootOk: bool)
  {
    |ops| >= 1 && ops[0] == OtaOp.Begin(true) && OtaTrace(outcome, ops[1..], endOk, bootOk)
    && ImageReceived(outcome, written, image, total)
  }

  /** A streamed OTA update ended as the run of the receive loop's definition
      decides: the run's outcome, or on its completion the activation's; the
      bytes it wrote, and the flags its write calls gave the OTA writes. */
  ghost predicate OtaUpdateRun(recv: nat -> int, writeOk: nat -> bool, bound: nat, total: nat, endOk: bool, bootOk: bool,
                               outcome: Outcome, ops: seq<OtaOp>, received: nat)
    requires TimeoutsEnd(recv, bound)
  {
    var run := StreamRun(recv, writeOk, bound, total, 0, 0);
    outcome == (if run.outcome != Completed then run.outcome else if endOk && bootOk then Completed else ValidationError)
    && received == run.received && run.writes <= |ops|
    && forall i :: 0 <= i < run.writes ==> ops[i].OtaWrite? && ops[i].writeOk == writeOk(i)
  }

  /** The OTA loop's calls, followed by the activation's once the loop
      completed, keep the flags the run's write calls gave them. */
  lemma OtaRunThenActivation(recv: nat -> int, writeOk: nat -> bool, bound: nat, total: nat, endOk: bool, bootOk: bool,
                             streamed: Outcome, outcome: Outcome, writes: seq<OtaOp>, ops: seq<OtaOp>, image: seq<byte>)
    requires TimeoutsEnd(recv, bound) && OtaRun(recv, writeOk, bound, total, streamed, writes, |image|)
    requires outcome == if streamed != Completed then streamed else if endOk && bootOk then Completed else ValidationError
    requires |writes| <= |ops| && ops[..|writes|] == writes
    ensures OtaUpdateRun(recv, writeOk, bound, total, endOk, bootOk, outcome, ops, |image|)
  {
    assert forall i :: 0 <= i < |writes| ==> ops[i] == writes[i];
  }

  /** Successful writes followed by the activation calls form the trace of the
      outcome that activation reports. */
  lemma ActivationTrace(writes: seq<OtaOp>, endOk: bool, bootOk: bool)
    requires OkWrites(writes)
    ensures OtaTrace(if endOk && bootOk then Completed else ValidationError, writes + ActivationCalls(endOk, bootOk), endOk, bootOk)
  {
    var t := ActivationCalls(endOk, bootOk);
    var ops := writes + t;
    assert ops[..|ops| - |t|] == writes;
    assert ops[|ops| - |t|..] == t;
  }

  /** The part of `POST_OTA_update` after a successful `esp_ota_begin`: stream
      the image, then validate and activate it and restart. `ops` are the OTA
      calls made. */
  method StreamAndActivate(sys: SystemModule, ota: OtaSession, contentLen: u32, body: seq<byte>,
                           recv: nat -> int, ghost bound: nat, writeOk: nat -> bool, endOk: bool, bootOk: bool)
    returns (outcome: Outcome, ops: seq<OtaOp>)
    requires |body| == contentLen && TimeoutsEnd(recv, bound) && ota.image == []
    modifies sys, ota
    ensures ota.log == old(ota.log) + ops
    ensures outcome.Streamed() && OtaTrace(outcome, ops, endOk, bootOk)
    ensures ImageReceived(outcome, ota.image, body, OtaLength(contentLen))
    ensures OtaUpdateRun(recv, writeOk, bound, OtaLength(contentLen), endOk, bootOk, outcome, ops, |ota.image|)
    ensures sys.firmwareUpdateStatus == FinalStatus(outcome, "Rebooting...")
    ensures Running(sys, old(sys.isFirmwareUpdate), old(sys.firmwareUpdateFilename), old(sys.statusHistory))
    ensures (endOk && bootOk && NeverFails(recv) && (forall k :: writeOk(k))) ==> outcome == Completed
  {
    var total := OtaLength(contentLen);
    var received: nat;
    outcome, ops, received := StreamToOta(ota, sys, total, contentLen, body, recv, bound, writeOk);
    ghost var streamed, writes := outcome, ops;
    if outcome != Completed {
      OtaRunThenActivation(recv, writeOk, bound, total, endOk, bootOk, streamed, outcome, writes, ops, ota.image);
      return;
    }
    ghost var history := sys.statusHistory;
    var tail: seq<OtaOp>;
    outcome, tail := Activate(sys, ota, endOk, bootOk);
    KnownAfterTrans(sys.statusHistory, history, old(sys.statusHistory));
    ActivationTrace(ops, endOk, bootOk);
    ops := ops + tail;
    assert ops[..|writes|] == writes;
    OtaRunThenActivation(recv, writeOk, bound, total, endOk, bootOk, streamed, outcome, writes, ops, ota.image);
  }

  /** The part of `POST_OTA_update` after the update has started: open an OTA
      session, stream the image into it, validate and activate it, restart. The
      `...Ok` flags say whether `esp_ota_begin`, `esp_ota_end` and
      `esp_ota_set_boot_partition` succeed; `ops` are the OTA calls made. */
  method OtaAfterStart(sys: SystemModule, ota: OtaSession, contentLen: u32, body: seq<byte>,
                       recv: nat -> int, ghost bound: nat,
                       beginOk: bool, writeOk: nat -> bool, endOk: bool, bootOk: bool)
    returns (outcome: Outcome, ops: seq<OtaOp>)
    requires |body| == contentLen && TimeoutsEnd(recv, bound)
    modifies sys, ota
    ensures ota.log == old(ota.log) + ops
    ensures outcome == Panicked || outcome.Streamed()
    ensures outcome == Panicked <==> !beginOk
    ensures outcome == Panicked ==> ops == [OtaOp.Begin(false)] && unchanged(sys)
    ensures outcome.Streamed() ==>
      OtaStreamed(outcome, ops, ota.image, body, OtaLength(contentLen), endOk, bootOk)
      && sys.firmwareUpdateStatus == FinalStatus(outcome, "Rebooting...")
    ensures outcome.Streamed() ==>
      OtaUpdateRun(recv, writeOk, bound, OtaLength(contentLen), endOk, bootOk, outcome, ops[1..], |ota.image|)
    ensures Running(sys, old(sys.isFirmwareUpdate), old(sys.firmwareUpdateFilename), old(sys.statusHistory))
    ensures (beginOk && endOk && bootOk && NeverFails(recv) && (forall k :: writeOk(k))) ==> outcome == Completed
  {
    var err := ota.Begin(beginOk);
    if err != EspOk {
      return Panicked, [OtaOp.Begin(false)];
    }
    var rest: seq<OtaOp>;
    outcome, rest := StreamAndActivate(sys, ota, contentLen, body, recv, bound, writeOk, endOk, bootOk);
    ops := [OtaOp.Begin(true)] + rest;
    assert ops[1..] == rest;
  }

  /** `POST_OTA_update`. The `...Ok` flags say whether `esp_ota_begin`,
      `esp_ota_end` and `esp_ota_set_boot_partition` succeed; receive call `k`
      returns `recv(k)`; write call `k` succeeds when `writeOk(k)`. `ops` are the
      OTA calls made. */
  method PostOtaUpdate(sys: SystemModule, ota: OtaSession, apEnabled: bool, client: Client, mode: WifiMode,
                       contentLen: u32, body: seq<byte>, recv: nat -> int, ghost bound: nat,
                       beginOk: bool, writeOk: nat -> bool, endOk: bool, bootOk: bool)
    returns (events: seq<Event>, outcome: Outcome, ops: seq<OtaOp>)
    requires |body| == contentLen && TimeoutsEnd(recv, bound)
    modifies sys, ota
    ensures events == Answer(outcome, OTA_DONE)
    ensures ota.log == old(ota.log) + ops
    ensures outcome == Refused <==> !Allowed(apEnabled, client)
    ensures outcome == ApMode <==> Allowed(apEnabled, client) && ApRunning(mode)
    ensures outcome == Panicked <==> Allowed(apEnabled, client) && !ApRunning(mode) && !beginOk
    ensures outcome.Started() ==> outcome == Panicked || outcome.Streamed()
    ensures !outcome.Started() ==> ops == [] && unchanged(sys) && unchanged(ota)
    ensures outcome == Panicked ==> ops == [OtaOp.Begin(false)]
    ensures outcome.Started() ==>
      sys.isFirmwareUpdate && sys.firmwareUpdateFilename == "esp-miner.bin"
      && sys.firmwareUpdateStatus == FinalStatus(outcome, "Rebooting...")
      && KnownAfter(sys.statusHistory, old(sys.statusHistory) + ["Starting..."])
    ensures outcome.Streamed() ==> OtaStreamed(outcome, ops, ota.image, body, OtaLength(contentLen), endOk, bootOk)
    ensures outcome.Streamed() ==>
      OtaUpdateRun(recv, writeOk, bound, OtaLength(contentLen), endOk, bootOk, outcome, ops[1..], |ota.image|)
    ensures (Allowed(apEnabled, client) && !ApRunning(mode) && beginOk && endOk && bootOk
      && NeverFails(recv) && (forall k :: writeOk(k))) ==> outcome == Completed
  {
    if !Allowed(apEnabled, client) {
      return UNAUTHORIZED, Refused, [];
    }
    if ApRunning(mode) {
      return [SendErr(500, "Not allowed in AP mode")], ApMode, [];
    }
    sys.StartUpdate("esp-miner.bin");
    outcome, ops := OtaAfterStart(sys, ota, contentLen, body, recv, bound, beginOk, writeOk, endOk, bootOk);
    events := Answer(outcome, OTA_DONE);
  }
}
