/** Bounded reading: downloads, retained files, and the redirects a download may follow. A reader
    delivers its data in chunks of any size, may be interrupted and may fail. */
module Streaming {
  import opened Basics
  import opened Ordering

  const U64_MAX: nat := 0xffff_ffff_ffff_ffff
  const DOWNLOAD_BUFFER: nat := 0x1_0000
  const RETAINED_BUFFER: nat := 512
  const MAX_INTERRUPTED_RETRIES: nat := 1024

  datatype Error =
    | Failed
    | TimedOut
    | Interrupted
    | TooLarge
    | HashMismatch
    | Install
    | SyncDirectory

  datatype Reading = Chunk(bytes: Text) | Signalled | Broken

  class Reader {
    const data: Text
    var at: nat
    ghost var faults: nat
    ghost var signals: nat

    constructor (data: Text)
      ensures this.data == data && at == 0 && faults == 0 && signals == 0
    {
      this.data, at, faults, signals := data, 0, 0, 0;
    }

    ghost predicate Valid()
      reads this
    {
      at <= |data|
    }

    /** Between one and `capacity` bytes; none only at the end. */
    method Read(capacity: nat) returns (r: Reading)
      requires Valid() && capacity > 0
      modifies this
      ensures Valid()
      ensures r.Chunk? ==> at == old(at) + |r.bytes| && r.bytes == data[old(at)..at] && |r.bytes| <= capacity
      ensures r.Chunk? ==> (r.bytes == [] <==> old(at) == |data|)
      ensures !r.Chunk? ==> at == old(at)
      ensures faults == old(faults) + (if r.Broken? then 1 else 0) && signals == old(signals) + if r.Signalled? then 1 else 0
    {
      var signalled: bool, broken: bool, n: int := *, *, *;
      if signalled {
        signals := signals + 1;
        return Signalled;
      }
      if broken {
        faults := faults + 1;
        return Broken;
      }
      if at == |data| { return Chunk([]); }
      var count := if 0 < n <= capacity && at + n <= |data| then n else 1;
      at := at + count;
      return Chunk(data[at - count..at]);
    }
  }

  function Min(a: nat, b: nat): nat {
    if a < b then a else b
  }

  function SaturatingSub(a: nat, b: nat): nat {
    if a < b then 0 else a - b
  }

  function SaturatingAdd(a: nat, b: nat): nat {
    Min(a + b, U64_MAX)
  }

  // ---- downloads ----------------------------------------------------------------------

  datatype Step = More(bytes: Text) | Done | Stop(error: Error)

  /** One round of the transfer loop: reads at most one byte past what is still allowed. */
  method TransferStep(reader: Reader, limit: nat, completed: nat) returns (r: Step)
    requires reader.Valid() && limit <= U64_MAX && completed <= limit && completed == reader.at
    modifies reader
    ensures reader.Valid() && reader.faults >= old(reader.faults) && reader.signals >= old(reader.signals)
    ensures old(reader.at) <= reader.at <= Min(limit + 1, |reader.data|)
    ensures r.Done? ==> reader.at == old(reader.at) == |reader.data|
    ensures r.More? ==> r.bytes != [] && r.bytes == reader.data[old(reader.at)..reader.at] && reader.at <= limit
    ensures r == Stop(TooLarge) ==> |reader.data| > limit
    ensures r.Stop? ==> r.error.TooLarge? || (r.error.Failed? && reader.faults + reader.signals > old(reader.faults + reader.signals))
  {
    var remaining := SaturatingSub(limit, completed);
    var capacity := Min(SaturatingAdd(remaining, 1), DOWNLOAD_BUFFER);
    var read := reader.Read(capacity);
    if !read.Chunk? { return Stop(Failed); }
    if read.bytes == [] { return Done; }
    if |read.bytes| > remaining { return Stop(TooLarge); }
    return More(read.bytes);
  }

  ghost predicate Undisturbed(reader: Reader, faults: nat, signals: nat)
    reads reader
  {
    reader.faults == faults && reader.signals == signals
  }

  /** Downloads into memory. Without read errors the whole stream comes back exactly when neither the
      announced nor the real length exceeds the limit; no more than limit + 1 bytes are ever pulled. */
  method ReadSourceWithLimits(reader: Reader, announced: Option<nat>, limit: nat) returns (r: Result<Text, Error>)
    requires reader.Valid() && reader.at == 0 && limit <= U64_MAX
    modifies reader
    ensures r.Ok? ==> r.value == reader.data
    ensures reader.at <= limit + 1
    ensures r.Ok? ==> |reader.data| <= limit && (announced.Some? ==> announced.value <= limit)
    ensures r == Err(TooLarge) ==> |reader.data| > limit || (announced.Some? && announced.value > limit)
    ensures Undisturbed(reader, old(reader.faults), old(reader.signals)) ==> r.Ok? || r == Err(TooLarge)
  {
    if announced.Some? && announced.value > limit { return Err(TooLarge); }
    var bytes: Text := [];
    while true
      invariant reader.Valid() && reader.faults >= old(reader.faults) && reader.signals >= old(reader.signals)
      invariant bytes == reader.data[..reader.at] && reader.at <= limit
      decreases |reader.data| - reader.at
    {
      var step := TransferStep(reader, limit, |bytes|);
      match step {
        case Done => break;
        case Stop(error) => return Err(error);
        case More(chunk) => bytes := bytes + chunk;
      }
    }
    return Ok(bytes);
  }

  /** The target path and the staging file beside it. Every file operation may fail. */
  class Destination {
    var target: Option<Text>
    var staging: Option<Text>
    /** File operations that failed. */
    ghost var faults: nat

    constructor (target: Option<Text>)
      ensures this.target == target && staging.None? && faults == 0
    {
      this.target, staging, faults := target, None, 0;
    }

    /** An operation that changes nothing: a flush, a sync. */
    method Attempt() returns (ok: bool)
      modifies this`faults
      ensures faults == old(faults) + if ok then 0 else 1
    {
      ok := *;
      faults := if ok then faults else faults + 1;
    }

    method Create() returns (ok: bool)
      requires staging.None?
      modifies this`staging, this`faults
      ensures staging == (if ok then Some([]) else None) && faults == old(faults) + if ok then 0 else 1
    {
      ok := Attempt();
      staging := if ok then Some([]) else None;
    }

    /** Appends all bytes; a failed write may have appended some. */
    method WriteAll(bytes: Text) returns (ok: bool)
      requires staging.Some?
      modifies this`staging, this`faults
      ensures staging.Some? && (ok ==> staging.value == old(staging).value + bytes)
      ensures faults == old(faults) + if ok then 0 else 1
    {
      ok := Attempt();
      var n: int := *;
      staging := Some(staging.value + if !ok && 0 <= n <= |bytes| then bytes[..n] else bytes);
    }

    /** The staging file takes the place of the target at once. */
    method Persist() returns (ok: bool)
      requires staging.Some?
      modifies this
      ensures faults == old(faults) + if ok then 0 else 1
      ensures target == (if ok then old(staging) else old(target)) && staging == if ok then None else old(staging)
    {
      ok := Attempt();
      if ok {
        target, staging := staging, None;
      }
    }

    /** Gives up, dropping the staging file. */
    method Abandon(error: Error) returns (r: Result<Text, Error>)
      modifies this`staging
      ensures r == Err(error) && staging.None?
    {
      staging := None;
      return Err(error);
    }
  }

  /** The errors by which a download blames its environment. */
  predicate Blamed(error: Error) {
    error.Failed? || error.Install? || error.SyncDirectory?
  }

  ghost predicate Authentic(sha: Text -> Text, data: Text, expected: Option<Text>) {
    expected.None? || expected.value == sha(data)
  }

  /** Downloads to a file. The target is replaced at once by the complete, authenticated stream, or not
      at all; the staging file never outlives the call. Unless a read or a file operation fails it
      succeeds exactly when the stream is within the limit and has the expected hash. */
  method WriteFetchedToFile(sha: Text -> Text, reader: Reader, to: Destination, limit: nat, expected: Option<Text>)
      returns (r: Result<Text, Error>)
    requires reader.Valid() && reader.at == 0 && limit <= U64_MAX && to.staging.None?
    modifies reader, to
    ensures to.staging.None? && reader.at <= limit + 1
    ensures to.target == old(to.target) || (to.target == Some(reader.data) && |reader.data| <= limit && Authentic(sha, reader.data, expected))
    ensures r.Ok? ==> to.target == Some(reader.data) && r.value == sha(reader.data)
    ensures r.Ok? ==> |reader.data| <= limit && Authentic(sha, reader.data, expected)
    ensures r == Err(TooLarge) ==> to.target == old(to.target) && |reader.data| > limit
    ensures r == Err(HashMismatch) ==> to.target == old(to.target) && |reader.data| <= limit && !Authentic(sha, reader.data, expected)
    ensures r.Err? ==> r == Err(TooLarge) || r == Err(HashMismatch) || Blamed(r.error)
    ensures r.Err? && Blamed(r.error) ==>
              !Undisturbed(reader, old(reader.faults), old(reader.signals)) || to.faults > old(to.faults)
  {
    var created := to.Create();
    if !created { return Err(Failed); }
    var hashed: Text := [];
    while true
      invariant reader.Valid() && reader.at <= limit && to.target == old(to.target) && to.faults == old(to.faults)
      invariant reader.faults >= old(reader.faults) && reader.signals >= old(reader.signals)
      invariant to.staging == Some(hashed) && hashed == reader.data[..reader.at]
      decreases |reader.data| - reader.at
    {
      var step := TransferStep(reader, limit, |hashed|);
      match step {
        case Done => break;
        case Stop(error) =>
          r := to.Abandon(error);
          return;
        case More(chunk) =>
          var written := to.WriteAll(chunk);
          if !written {
            r := to.Abandon(Failed);
            return;
          }
          hashed := hashed + chunk;
      }
    }
    assert hashed == reader.data;
    r := Publish(to, sha(hashed), expected);
  }

  method Publish(to: Destination, actual: Text, expected: Option<Text>) returns (r: Result<Text, Error>)
    requires to.staging.Some?
    modifies to
    ensures to.staging.None? && to.faults >= old(to.faults)
    ensures to.target == old(to.target) || (to.target == old(to.staging) && (expected.None? || expected.value == actual))
    ensures r.Ok? ==> r.value == actual && to.target == old(to.staging) && (expected.None? || expected.value == actual)
    ensures r == Err(HashMismatch) ==> to.target == old(to.target) && expected.Some? && expected.value != actual
    ensures r.Err? ==> r == Err(HashMismatch) || (Blamed(r.error) && to.faults > old(to.faults))
  {
    var flushed := to.Attempt();
    var synced := false;
    if flushed {
      synced := to.Attempt();
    }
    if !synced {
      r := to.Abandon(Failed);
      return;
    }
    if expected.Some? && actual != expected.value {
      r := to.Abandon(HashMismatch);
      return;
    }
    var persisted := to.Persist();
    if !persisted {
      r := to.Abandon(Install);
      return;
    }
    var directoryOpen := to.Attempt();
    if !directoryOpen { return Err(SyncDirectory); }
    var directorySynced := to.Attempt();
    return if directorySynced then Ok(actual) else Err(SyncDirectory);
  }

  // ---- retained files -----------------------------------------------------------------

  /** The clock an operation looks at, if it has a deadline. */
  ghost function Clock(deadline: Option<Deadline>): set<object> {
    if deadline.Some? then {deadline.value} else {}
  }

  ghost predicate Late(deadline: Option<Deadline>)
    reads Clock(deadline)
  {
    deadline.Some? && deadline.value.passed
  }

  method Expired(deadline: Option<Deadline>) returns (late: bool)
    modifies Clock(deadline)
    ensures late <==> Late(deadline)
    ensures old(Late(deadline)) ==> Late(deadline)
  {
    if deadline.None? { return false; }
    late := deadline.value.Check();
  }

  class Allocator {
    /** Reservations that failed. */
    ghost var failures: nat

    constructor ()
      ensures failures == 0
    {
      failures := 0;
    }

    method Reserve() returns (ok: bool)
      modifies this
      ensures failures == old(failures) + if ok then 0 else 1
    {
      ok := *;
      failures := if ok then failures else failures + 1;
    }
  }

  /** The retained reader: the first min(length, limit) bytes, whatever the chunks. It succeeds exactly
      if no read and no reservation fails, the deadline does not pass and at most 1024 reads are
      interrupted, and each error says which of these it was. */
  method ReadToEndBounded(reader: Reader, limit: nat, deadline: Option<Deadline>, memory: Allocator)
      returns (r: Result<Text, Error>)
    requires reader.Valid() && reader.at == 0
    modifies reader, memory, Clock(deadline)
    ensures r.Ok? ==> r.value == reader.data[..Min(|reader.data|, limit)]
    ensures r.Ok? <==>
              && reader.faults == old(reader.faults) && memory.failures == old(memory.failures) && !Late(deadline)
              && reader.signals <= old(reader.signals) + MAX_INTERRUPTED_RETRIES
    ensures r == Err(Interrupted) <==> reader.signals == old(reader.signals) + MAX_INTERRUPTED_RETRIES + 1
    ensures r == Err(TimedOut) <==> Late(deadline)
    ensures r == Err(Failed) <==> reader.faults > old(reader.faults) || memory.failures > old(memory.failures)
    ensures reader.at <= limit
  {
    var late := Expired(deadline);
    if late { return Err(TimedOut); }
    var reserved := memory.Reserve();
    if !reserved { return Err(Failed); }
    var bytes: Text, interruptions: nat := [], 0;
    while |bytes| < limit
      invariant reader.Valid() && bytes == reader.data[..reader.at] && reader.at <= limit && !Late(deadline)
      invariant reader.faults == old(reader.faults) && memory.failures == old(memory.failures)
      invariant interruptions <= MAX_INTERRUPTED_RETRIES && reader.signals == old(reader.signals) + interruptions
      decreases limit - |bytes| + MAX_INTERRUPTED_RETRIES - interruptions
    {
      late := Expired(deadline);
      if late { return Err(TimedOut); }
      var read := reader.Read(Min(limit - |bytes|, RETAINED_BUFFER));
      match read {
        case Chunk(chunk) =>
          late := Expired(deadline);
          if late { return Err(TimedOut); }
          if chunk == [] { break; }
          reserved := memory.Reserve();
          if !reserved { return Err(Failed); }
          bytes := bytes + chunk;
        case Signalled =>
          if interruptions >= MAX_INTERRUPTED_RETRIES { return Err(Interrupted); }
          interruptions := interruptions + 1;
        case Broken => return Err(Failed);
      }
    }
    late := Expired(deadline);
    return if late then Err(TimedOut) else Ok(bytes);
  }

  /** An operation that may be interrupted, fail, or yield a value. */
  class Operation<T> {
    const value: T
    var calls: nat
    /** Calls that a signal interrupted. */
    ghost var signals: nat
    /** Calls that failed. */
    ghost var failures: nat

    constructor (value: T)
      ensures this.value == value && calls == 0 && signals == 0 && failures == 0
    {
      this.value, calls, signals, failures := value, 0, 0, 0;
    }

    method Call() returns (r: Result<T, Error>)
      modifies this
      ensures calls == old(calls) + 1 && signals == old(signals) + if r == Err(Interrupted) then 1 else 0
      ensures failures == old(failures) + if r == Err(Failed) then 1 else 0
      ensures r == Ok(value) || r == Err(Interrupted) || r == Err(Failed)
    {
      var signalled: bool, failed: bool := *, *;
      r := if signalled then Err(Interrupted) else if failed then Err(Failed) else Ok(value);
      calls := calls + 1;
      signals, failures := signals + (if signalled then 1 else 0), failures + if !signalled && failed then 1 else 0;
    }
  }

  /** Retries an interrupted operation 1024 times at most: every call but the last was interrupted. It
      succeeds exactly if no call fails, the deadline does not pass and at most 1024 calls are
      interrupted, and each error says which of these it was. */
  method RetryInterrupted<T>(deadline: Option<Deadline>, operation: Operation<T>) returns (r: Result<T, Error>)
    modifies operation, Clock(deadline)
    ensures operation.calls <= old(operation.calls) + MAX_INTERRUPTED_RETRIES + 1
    ensures operation.calls - old(operation.calls)
         == operation.signals - old(operation.signals) + if r.Ok? || r == Err(Failed) then 1 else 0
    ensures r.Ok? ==> r.value == operation.value
    ensures r.Ok? <==>
              && operation.failures == old(operation.failures) && !Late(deadline)
              && operation.signals <= old(operation.signals) + MAX_INTERRUPTED_RETRIES
    ensures r == Err(Interrupted) <==> operation.signals == old(operation.signals) + MAX_INTERRUPTED_RETRIES + 1
    ensures r == Err(TimedOut) <==> Late(deadline)
    ensures r == Err(Failed) <==> operation.failures == old(operation.failures) + 1
  {
    var interruptions := 0;
    while true
      invariant interruptions <= MAX_INTERRUPTED_RETRIES && operation.calls == old(operation.calls) + interruptions
      invariant operation.signals == old(operation.signals) + interruptions && operation.failures == old(operation.failures)
      decreases MAX_INTERRUPTED_RETRIES - interruptions
    {
      var late := Expired(deadline);
      if late { return Err(TimedOut); }
      r := operation.Call();
      if r != Err(Interrupted) { return; }
      if interruptions >= MAX_INTERRUPTED_RETRIES { return; }
      interruptions := interruptions + 1;
    }
  }

  // ---- redirects ----------------------------------------------------------------------

  datatype Url = Url(scheme: string, username: string, password: Option<string>, fragment: Option<string>, host: Option<string>)

  datatype RedirectError = TooManyHops | EmbeddedCredentials | Fragment | UnsupportedTarget | TransportDowngrade

  function ValidateRedirect(previous: seq<Url>, next: Url): Outcome<RedirectError> {
    if |previous| > 10 then Fail(TooManyHops)
    else if next.username != "" || next.password.Some? then Fail(EmbeddedCredentials)
    else if next.fragment.Some? then Fail(Fragment)
    else if (next.scheme != "http" && next.scheme != "https") || next.host.None? then Fail(UnsupportedTarget)
    else if previous != [] && previous[|previous| - 1].scheme == "https" && next.scheme != "https" then Fail(TransportDowngrade)
    else Pass
  }

  /** The request's own URL, then every URL a redirect led to. */
  ghost predicate Followed(chain: seq<Url>) {
    chain != [] && forall i :: 0 < i < |chain| ==> ValidateRedirect(chain[..i], chain[i]).Pass?
  }

  /** A followed chain has at most ten hops. */
  lemma RedirectsAreBounded(chain: seq<Url>)
    requires Followed(chain)
    ensures |chain| - 1 <= 10
  {
    if |chain| > 1 {
      assert ValidateRedirect(chain[..|chain| - 1], chain[|chain| - 1]).Pass?;
    }
  }

  /** Once on https a chain never leaves it. */
  lemma {:induction false} RedirectsStaySecure(chain: seq<Url>, i: nat, j: nat)
    requires Followed(chain) && i <= j < |chain| && chain[i].scheme == "https"
    ensures chain[j].scheme == "https"
    decreases j
  {
    if i < j {
      RedirectsStaySecure(chain, i, j - 1);
      assert ValidateRedirect(chain[..j], chain[j]).Pass?;
    }
  }

  lemma RedirectsCarryNothing(chain: seq<Url>, i: nat)
    requires Followed(chain) && 0 < i < |chain|
    ensures chain[i].host.Some? && (chain[i].scheme == "http" || chain[i].scheme == "https")
    ensures chain[i].username == "" && chain[i].password.None? && chain[i].fragment.None?
  {
    assert ValidateRedirect(chain[..i], chain[i]).Pass?;
  }
}
