/** The declaration-migration bridge: content-addressed blobs, written first, and catalog rows,
    committed second. A process may die or a call may fail at any step; power may be lost between
    operations. Addresses are the hexadecimal digests themselves. */
module Migration {
  import opened Basics
  import opened Ordering

  /** `synced`: the bytes are on stable storage; `named`: so is the directory entry. */
  datatype Blob = Blob(data: Text, synced: bool, named: bool)

  datatype Key = Key(state: int, slot: Text)

  datatype Row = Row(
    key: Key,
    schemaVersion: int,
    stateTreeMarker: Text,
    originalLanguage: Text,
    originalLogicalPath: Text,
    originalSha256: Text,
    migratedLanguage: Text,
    blob: Text,
    evaluationIdentity: Text)

  datatype Request = Request(
    key: Key,
    stateTreeMarker: Text,
    originalLanguage: Text,
    originalLogicalPath: Text,
    originalSha256: Text,
    migratedLanguage: Text,
    convertedBytes: Text,
    evaluationIdentity: Text)

  datatype Error =
    | Io
    | Crashed
    | ContentMismatch
    | ContentAddressMismatch
    | Database
    | RowMismatch
    | StateTreeMarkerDrift
    | OriginalSourceDrift

  /** What becomes of the process at its next stop: `written` bytes have reached the file by then. */
  datatype Fate = Proceeds | Dies(written: nat) | Fails(written: nat)

  datatype Commit = Committed | AlreadyPresent

  datatype Readiness = Readiness(ready: seq<Key>, missing: seq<Key>, unresolved: seq<Key>) {
    predicate IsReady() {
      missing == [] && unresolved == []
    }
  }

  datatype Finalization = Finalization(readiness: Readiness, collected: seq<Text>)

  const CATALOG_SCHEMA_VERSION: int := 1

  function RowOf(sha: Text -> Text, q: Request): Row {
    Row(q.key, CATALOG_SCHEMA_VERSION, q.stateTreeMarker, q.originalLanguage, q.originalLogicalPath, q.originalSha256,
        q.migratedLanguage, sha(q.convertedBytes), q.evaluationIdentity)
  }

  // ---- states -------------------------------------------------------------------------

  /** The blob a row selects is there and hashes to its name. */
  predicate Intact(sha: Text -> Text, blobs: map<Text, Blob>, address: Text) {
    address in blobs && sha(blobs[address].data) == address
  }

  predicate Settled(blobs: map<Text, Blob>, address: Text) {
    address in blobs && blobs[address].synced && blobs[address].named
  }

  /** Every committed row resolves. */
  ghost predicate Sound(sha: Text -> Text, blobs: map<Text, Blob>, rows: map<Key, Row>) {
    forall k :: k in rows ==> rows[k].key == k && Intact(sha, blobs, rows[k].blob)
  }

  /** Every committed row resolves to bytes that a power loss cannot take. */
  ghost predicate Durable(sha: Text -> Text, blobs: map<Text, Blob>, rows: map<Key, Row>) {
    Sound(sha, blobs, rows) && forall k :: k in rows ==> Settled(blobs, rows[k].blob)
  }

  ghost predicate Referenced(rows: map<Key, Row>, address: Text) {
    exists k :: k in rows && rows[k].blob == address
  }

  /** Blobs are only ever added, and only at one address. */
  ghost predicate Adds(before: map<Text, Blob>, after: map<Text, Blob>, address: Text) {
    && (forall a :: a in before ==> a in after && after[a] == before[a])
    && (forall a :: a in after && a !in before ==> a == address)
  }

  /** Blobs are only ever removed, and never one a row selects. */
  ghost predicate Sweeps(rows: map<Key, Row>, before: map<Text, Blob>, after: map<Text, Blob>) {
    && (forall a :: a in after ==> a in before && after[a] == before[a])
    && (forall k :: k in rows && rows[k].blob in before ==> rows[k].blob in after)
  }

  /** The sweep has still to look at `remaining`. */
  ghost predicate Sweeping(rows: map<Key, Row>, before: map<Text, Blob>, now: map<Text, Blob>, referenced: set<Text>,
                           remaining: set<Text>, collected: seq<Text>)
  {
    && Sweeps(rows, before, now) && (forall a :: a in referenced <==> Referenced(rows, a))
    && remaining <= now.Keys && NoDup(collected)
    && (forall a :: a in before ==> (a in now <==> a in remaining || a in referenced))
    && (forall a :: a in collected <==> a in before && a !in now)
  }

  lemma SweepOne(rows: map<Key, Row>, before: map<Text, Blob>, now: map<Text, Blob>, referenced: set<Text>,
                 remaining: set<Text>, collected: seq<Text>, address: Text)
    requires Sweeping(rows, before, now, referenced, remaining, collected) && address in remaining && address !in referenced
    ensures Sweeping(rows, before, now - {address}, referenced, remaining - {address}, collected + [address])
  {
    assert address !in collected && forall k :: k in rows ==> rows[k].blob in referenced;
  }

  lemma SweptAll(rows: map<Key, Row>, before: map<Text, Blob>, now: map<Text, Blob>, referenced: set<Text>, collected: seq<Text>)
    requires Sweeping(rows, before, now, referenced, {}, collected)
    ensures forall a :: a in now <==> a in before && Referenced(rows, a)
  {
  }

  /** Settled blobs survive; any other may be gone or hold anything. */
  predicate Loses(before: map<Text, Blob>, after: map<Text, Blob>) {
    && (forall a :: a in before && Settled(before, a) ==> a in after && after[a] == before[a])
    && (forall a :: a in after ==> Settled(after, a))
  }

  /** Rows resolve after every possible power loss exactly when their blobs are settled. */
  lemma SurvivesIffSettled(sha: Text -> Text, blobs: map<Text, Blob>, rows: map<Key, Row>)
    requires Sound(sha, blobs, rows)
    ensures (forall after :: Loses(blobs, after) ==> Sound(sha, after, rows)) <==> Durable(sha, blobs, rows)
  {
    var kept := map a | a in blobs && Settled(blobs, a) :: blobs[a];
    assert Loses(blobs, kept);
    if Sound(sha, kept, rows) {
      forall k | k in rows
        ensures Settled(blobs, rows[k].blob)
      {
        assert Intact(sha, kept, rows[k].blob);
      }
    }
  }

  ghost predicate Unsettled(blobs: map<Text, Blob>, address: Text) {
    address in blobs && !Settled(blobs, address)
  }

  /** Committing a row keeps durability exactly when the blob it names is settled. */
  lemma CommittedIsDurable(sha: Text -> Text, before: map<Text, Blob>, after: map<Text, Blob>, rows: map<Key, Row>, row: Row)
    requires Adds(before, after, row.blob) && row.key !in rows
    requires Intact(sha, after, row.blob) && (row.blob !in before ==> Settled(after, row.blob))
    ensures Sound(sha, before, rows) ==> Sound(sha, after, rows[row.key := row])
    ensures Durable(sha, before, rows) ==> (Durable(sha, after, rows[row.key := row]) <==> !Unsettled(before, row.blob))
  {
    assert rows[row.key := row][row.key] == row;
  }

  /** Every key is in one of the three lists, as often as it was asked for. */
  ghost predicate Sorts(keys: seq<Key>, r: Readiness) {
    multiset(r.ready) + multiset(r.missing) + multiset(r.unresolved) == multiset(keys)
  }

  lemma SortsOneMore(keys: seq<Key>, r: Readiness, k: Key)
    requires Sorts(keys, r)
    ensures Sorts(keys + [k], r.(ready := r.ready + [k]))
    ensures Sorts(keys + [k], r.(missing := r.missing + [k]))
    ensures Sorts(keys + [k], r.(unresolved := r.unresolved + [k]))
  {
  }

  lemma ReadyMeansAll(required: seq<Key>, r: Readiness)
    requires Sorts(required, r)
    ensures forall k :: k in required <==> k in r.ready || k in r.missing || k in r.unresolved
    ensures r.IsReady() <==> forall k :: k in required ==> k !in r.missing && k !in r.unresolved
  {
    assert r.missing != [] ==> r.missing[0] in r.missing;
    assert r.unresolved != [] ==> r.unresolved[0] in r.unresolved;
    forall k
      ensures k in required <==> k in r.ready || k in r.missing || k in r.unresolved
    {
      assert k in required <==> multiset(required)[k] > 0;
    }
  }

  // ---- runs ---------------------------------------------------------------------------

  datatype Operation =
    | Migrate(request: Request)
    | Prune(states: set<int>)
    | Collect
    | Finalize(required: seq<Key>)
    | PowerLoss(after: map<Text, Blob>)

  ghost predicate PowerHolds(ops: seq<Operation>) {
    forall i :: 0 <= i < |ops| ==> !ops[i].PowerLoss?
  }

  function Pruned(ops: seq<Operation>): set<int> {
    if ops == [] then {} else
      Pruned(ops[..|ops| - 1]) + match ops[|ops| - 1] case Prune(states) => states case _ => {}
  }

  /** Rows of states that were not pruned stand, and resolve to the bytes they did. */
  ghost predicate Keeps(blobs0: map<Text, Blob>, rows0: map<Key, Row>, blobs1: map<Text, Blob>, rows1: map<Key, Row>, pruned: set<int>) {
    forall k :: k in rows0 && k.state !in pruned ==>
      && k in rows1 && rows1[k] == rows0[k]
      && rows0[k].blob in blobs0 && rows0[k].blob in blobs1 && blobs1[rows0[k].blob].data == blobs0[rows0[k].blob].data
  }

  /** A write finds the name free or the same bytes under it. */
  predicate Acceptable(blobs: map<Text, Blob>, address: Text, bytes: Text) {
    address in blobs ==> blobs[address].data == bytes
  }

  function Written(bytes: Text, n: nat): (r: Text)
    ensures r <= bytes
  {
    if n <= |bytes| then bytes[..n] else bytes
  }

  /** The process dies while it writes the bytes of a fresh blob. */
  predicate DiesWriting(script: seq<Fate>) {
    |script| >= 2 && script[0].Proceeds? && script[1].Dies?
  }

  /** The process dies after the bytes and before their sync. */
  predicate DiesUnsynced(script: seq<Fate>) {
    |script| >= 3 && script[0].Proceeds? && script[1].Proceeds? && script[2].Dies?
  }

  // ---- operations ---------------------------------------------------------------------

  class MigrationStore {
    const sha: Text -> Text
    var blobs: map<Text, Blob>
    var rows: map<Key, Row>
    /** The fates of the next stops; past its end nothing goes wrong. */
    var script: seq<Fate>
    /** Calls that failed. */
    ghost var faults: nat
    /** Calls that failed, and deaths. */
    ghost var stops: nat
    /** A row was committed over a blob that was not yet settled. */
    ghost var exposed: bool

    constructor (sha: Text -> Text, script: seq<Fate>)
      ensures this.sha == sha && this.script == script && blobs == map[] && rows == map[] && faults == 0 && stops == 0 && !exposed
      ensures Durable(sha, blobs, rows)
    {
      this.sha, this.script, blobs, rows, faults, stops, exposed := sha, script, map[], map[], 0, 0, false;
    }

    /** Past the end of the script nothing goes wrong. */
    twostate predicate Undisturbed()
      reads this
    {
      && old(faults) <= faults && old(stops) <= stops
      && (stops == old(stops) ==> faults == old(faults)) && (old(script) == [] ==> script == [] && stops == old(stops))
    }

    /** The next call fails, or the process dies before it, or neither. */
    method Stops() returns (why: Option<Error>, written: nat)
      modifies this`script, this`faults, this`stops
      ensures Undisturbed() && stops == old(stops) + (if why.Some? then 1 else 0) && (why.None? ==> faults == old(faults))
      ensures why.Some? ==> (why == Some(Crashed) || (why == Some(Io) && faults > old(faults)))
      ensures old(script) != [] ==>
                && script == old(script)[1..]
                && (old(script)[0].Proceeds? ==> why.None?)
                && (old(script)[0].Dies? ==> why == Some(Crashed) && written == old(script)[0].written)
    {
      why, written := None, 0;
      if script == [] { return; }
      var fate := script[0];
      script := script[1..];
      match fate
      case Proceeds =>
      case Dies(n) =>
        why, written := Some(Crashed), n;
        stops := stops + 1;
      case Fails(n) =>
        why, written := Some(Io), n;
        faults, stops := faults + 1, stops + 1;
    }

    /** `read`: the bytes, only if they still hash to their name. */
    method Read(address: Text) returns (r: Result<Text, Error>)
      modifies this`script, this`faults, this`stops
      ensures Undisturbed() && (r == Err(Crashed) ==> stops > old(stops))
      ensures r.Ok? ==> Intact(sha, blobs, address) && r.value == blobs[address].data && faults == old(faults)
      ensures r == Err(ContentAddressMismatch) ==> address in blobs && !Intact(sha, blobs, address)
      ensures r == Err(Io) ==> faults > old(faults) || address !in blobs
      ensures r.Err? ==> r.error.Io? || r.error.Crashed? || r.error.ContentAddressMismatch?
    {
      var why, written := Stops();
      if why.Some? { return Err(why.value); }
      if address !in blobs { return Err(Io); }
      if sha(blobs[address].data) != address { return Err(ContentAddressMismatch); }
      return Ok(blobs[address].data);
    }

    /** Writes a blob under its digest without ever replacing one. What a failed or dying write leaves
        behind is a prefix of the bytes under a name that was free. */
    method Write(bytes: Text) returns (r: Result<Text, Error>)
      modifies this`blobs, this`script, this`faults, this`stops
      ensures Undisturbed() && (r == Err(Crashed) ==> stops > old(stops))
      ensures Adds(old(blobs), blobs, sha(bytes))
      ensures r.Ok? ==> r.value == sha(bytes) && sha(bytes) in blobs && blobs[sha(bytes)].data == bytes
      ensures r.Ok? && sha(bytes) !in old(blobs) ==> Settled(blobs, sha(bytes))
      ensures r.Err? && sha(bytes) in blobs && sha(bytes) !in old(blobs) ==> blobs[sha(bytes)].data <= bytes
      ensures faults == old(faults) && r != Err(Crashed) ==>
                (r.Ok? <==> Acceptable(old(blobs), sha(bytes), bytes))
      ensures sha(bytes) !in old(blobs) && DiesWriting(old(script)) ==>
                && r == Err(Crashed) && script == old(script)[2..]
                && blobs == old(blobs)[sha(bytes) := Blob(Written(bytes, old(script)[1].written), false, false)]
      ensures sha(bytes) !in old(blobs) && DiesUnsynced(old(script)) ==>
                && r == Err(Crashed) && script == old(script)[3..]
                && blobs == old(blobs)[sha(bytes) := Blob(bytes, false, false)]
      ensures r == Err(ContentAddressMismatch) ==> sha(bytes) in old(blobs) && !Intact(sha, old(blobs), sha(bytes))
      ensures r == Err(ContentMismatch) ==> Intact(sha, old(blobs), sha(bytes)) && old(blobs)[sha(bytes)].data != bytes
      ensures r == Err(Io) ==> faults > old(faults)
      ensures r.Err? ==> r.error.Io? || r.error.Crashed? || r.error.ContentMismatch? || r.error.ContentAddressMismatch?
    {
      var address := sha(bytes);
      var why, written := Stops();
      if why.Some? { return Err(why.value); }
      if address in blobs {
        var existing := Read(address);
        if existing.Err? { return existing; }
        return if existing.value == bytes then Ok(address) else Err(ContentMismatch);
      }
      why, written := Stops();
      if why.Some? {
        blobs := blobs[address := Blob(Written(bytes, written), false, false)];
        return Err(why.value);
      }
      blobs := blobs[address := Blob(bytes, false, false)];
      why, written := Stops();
      if why.Some? { return Err(why.value); }
      blobs := blobs[address := Blob(bytes, true, false)];
      var reopened := Read(address);
      if reopened.Err? { return reopened; }
      if reopened.value != bytes { return Err(ContentMismatch); }
      why, written := Stops();
      if why.Some? { return Err(why.value); }
      blobs := blobs[address := Blob(bytes, true, true)];
      return Ok(address);
    }

    /** One exclusive transaction: inserts if absent, accepts an equal row, refuses any other. A
        process that dies around it leaves the row in or out, never changed. */
    method CommitRow(row: Row) returns (r: Result<Commit, Error>)
      modifies this`rows, this`script, this`faults, this`stops
      ensures Undisturbed() && (r == Err(Crashed) ==> stops > old(stops))
      ensures rows == old(rows) || (row.key !in old(rows) && rows == old(rows)[row.key := row])
      ensures r == Ok(Committed) ==> row.key !in old(rows) && rows == old(rows)[row.key := row]
      ensures faults == old(faults) && r != Err(Crashed) ==> (r == Ok(Committed) <==> row.key !in old(rows))
      ensures r == Ok(AlreadyPresent) ==> rows == old(rows) && row.key in rows && rows[row.key] == row
      ensures r == Err(RowMismatch) ==> rows == old(rows) && row.key in rows && rows[row.key] != row
      ensures r == Err(Database) ==> rows == old(rows) && faults > old(faults)
      ensures old(Sound(sha, blobs, rows)) ==> (Sound(sha, blobs, rows) <==> rows == old(rows) || Intact(sha, blobs, row.blob))
      ensures r.Err? ==> r.error.RowMismatch? || r.error.Database? || r.error.Crashed?
    {
      var why, written := Stops();
      if why.Some? { return Err(if why.value == Io then Database else why.value); }
      if row.key in rows {
        return if rows[row.key] == row then Ok(AlreadyPresent) else Err(RowMismatch);
      }
      rows := rows[row.key := row];
      why, written := Stops();
      return if why.Some? then Err(Crashed) else Ok(Committed);
    }

    /** Blob first, row second. Existing blobs and rows stay as they are, every row still resolves,
        and the only way to lose durability is to commit over a blob that was not settled. */
    method MigrateDeclaration(q: Request) returns (r: Result<Commit, Error>)
      modifies this
      ensures Undisturbed() && (r == Err(Crashed) ==> stops > old(stops))
      ensures Adds(old(blobs), blobs, sha(q.convertedBytes))
      ensures rows == old(rows) || (q.key !in old(rows) && rows == old(rows)[q.key := RowOf(sha, q)])
      ensures rows != old(rows) ==> sha(q.convertedBytes) in blobs && blobs[sha(q.convertedBytes)].data == q.convertedBytes
      ensures r == Ok(Committed) ==> rows != old(rows)
      ensures r == Ok(AlreadyPresent) ==> rows == old(rows) && q.key in rows && rows[q.key] == RowOf(sha, q)
      ensures r == Err(RowMismatch) ==> rows == old(rows) && q.key in rows && rows[q.key] != RowOf(sha, q)
      ensures r == Err(Io) || r == Err(Database) ==> faults > old(faults)
      ensures stops == old(stops) ==>
                (r == Ok(Committed) <==> q.key !in old(rows) && Acceptable(old(blobs), sha(q.convertedBytes), q.convertedBytes))
      ensures stops == old(stops) && sha(q.convertedBytes) in old(blobs) && !Intact(sha, old(blobs), sha(q.convertedBytes)) ==>
                r == Err(ContentAddressMismatch)
      ensures sha(q.convertedBytes) !in old(blobs) && DiesWriting(old(script)) ==>
                && r == Err(Crashed) && script == old(script)[2..] && rows == old(rows)
                && blobs == old(blobs)[sha(q.convertedBytes) := Blob(Written(q.convertedBytes, old(script)[1].written), false, false)]
      ensures sha(q.convertedBytes) !in old(blobs) && DiesUnsynced(old(script)) ==>
                && r == Err(Crashed) && script == old(script)[3..] && rows == old(rows)
                && blobs == old(blobs)[sha(q.convertedBytes) := Blob(q.convertedBytes, false, false)]
      ensures old(Sound(sha, blobs, rows)) ==> Sound(sha, blobs, rows)
      ensures exposed <==> old(exposed) || (rows != old(rows) && Unsettled(old(blobs), sha(q.convertedBytes)))
      ensures old(Durable(sha, blobs, rows)) ==>
                (Durable(sha, blobs, rows) <==> rows == old(rows) || !Unsettled(old(blobs), sha(q.convertedBytes)))
    {
      ghost var before, rows0 := blobs, rows;
      var address := Write(q.convertedBytes);
      if address.Err? { return Err(address.error); }
      var row := RowOf(sha, q);
      r := CommitRow(row);
      if rows != rows0 {
        exposed := exposed || Unsettled(before, row.blob);
        CommittedIsDurable(sha, before, blobs, rows0, row);
        assert row.key !in rows0;
      }
    }

    method ReadRow(key: Key) returns (r: Result<Option<Row>, Error>)
      modifies this`script, this`faults, this`stops
      ensures Undisturbed() && (r == Err(Crashed) ==> stops > old(stops))
      ensures r.Ok? ==> r.value == (if key in rows then Some(rows[key]) else None) && faults == old(faults)
      ensures r.Err? ==> r == Err(Crashed) || (r == Err(Database) && faults > old(faults))
    {
      var why, written := Stops();
      if why.Some? { return Err(if why.value == Io then Database else why.value); }
      return Ok(if key in rows then Some(rows[key]) else None);
    }

    /** A slot resolves to the bytes its committed row names; a blob without a row is never selected. */
    method ResolveMigratedBlob(key: Key) returns (r: Result<Option<Text>, Error>)
      modifies this`script, this`faults, this`stops
      ensures Undisturbed() && (r == Err(Crashed) ==> stops > old(stops))
      ensures r.Ok? ==> (r.value.Some? <==> key in rows)
      ensures r.Ok? && key in rows ==> Intact(sha, blobs, rows[key].blob) && r.value == Some(blobs[rows[key].blob].data)
      ensures r.Err? ==> stops > old(stops) || (key in rows && !Intact(sha, blobs, rows[key].blob))
    {
      var row := ReadRow(key);
      if row.Err? { return Err(row.error); }
      if row.value.None? { return Ok(None); }
      var bytes := Read(row.value.value.blob);
      return if bytes.Ok? then Ok(Some(bytes.value)) else Err(bytes.error);
    }

    /** Resolution that also demands the tree marker and source hash the row was made for. */
    method ResolveRevalidated(key: Key, marker: Text, original: Text) returns (r: Result<Option<Text>, Error>)
      modifies this`script, this`faults, this`stops
      ensures Undisturbed() && (r == Err(Crashed) ==> stops > old(stops))
      ensures r.Ok? ==> (r.value.Some? <==> key in rows)
      ensures r.Ok? && key in rows ==> rows[key].stateTreeMarker == marker && rows[key].originalSha256 == original
      ensures r.Ok? && key in rows ==> Intact(sha, blobs, rows[key].blob) && r.value == Some(blobs[rows[key].blob].data)
      ensures r == Err(StateTreeMarkerDrift) ==> key in rows && rows[key].stateTreeMarker != marker
      ensures r == Err(OriginalSourceDrift) ==> key in rows && rows[key].originalSha256 != original
      ensures r.Err? ==>
                || r == Err(StateTreeMarkerDrift) || r == Err(OriginalSourceDrift)
                || stops > old(stops) || (key in rows && !Intact(sha, blobs, rows[key].blob))
    {
      var row := ReadRow(key);
      if row.Err? { return Err(row.error); }
      if row.value.None? { return Ok(None); }
      if row.value.value.stateTreeMarker != marker { return Err(StateTreeMarkerDrift); }
      if row.value.value.originalSha256 != original { return Err(OriginalSourceDrift); }
      var bytes := Read(row.value.value.blob);
      return if bytes.Ok? then Ok(Some(bytes.value)) else Err(bytes.error);
    }

    /** Sorts every required slot into ready, missing or unresolved. */
    method VerifyMigrationReadiness(required: seq<Key>) returns (r: Result<Readiness, Error>)
      modifies this`script, this`faults, this`stops
      ensures Undisturbed() && (r == Err(Crashed) ==> stops > old(stops))
      ensures r.Ok? ==> Sorts(required, r.value)
      ensures r.Ok? ==> forall k :: k in r.value.ready ==> k in rows && Intact(sha, blobs, rows[k].blob)
      ensures r.Ok? ==> forall k :: k in r.value.missing ==> k !in rows
      ensures r.Ok? ==> forall k :: k in r.value.unresolved ==> k in rows
      ensures r.Ok? && faults == old(faults) ==>
                forall k :: k in r.value.unresolved ==> !Intact(sha, blobs, rows[k].blob)
      ensures r.Err? ==> r == Err(Crashed) || (r == Err(Database) && faults > old(faults))
    {
      var result := Readiness([], [], []);
      for i := 0 to |required|
        invariant Undisturbed()
        invariant Sorts(required[..i], result)
        invariant forall k :: k in result.ready ==> k in rows && Intact(sha, blobs, rows[k].blob)
        invariant forall k :: k in result.missing ==> k !in rows
        invariant forall k :: k in result.unresolved ==> k in rows
        invariant faults == old(faults) ==> forall k :: k in result.unresolved ==> !Intact(sha, blobs, rows[k].blob)
      {
        assert required[..i + 1] == required[..i] + [required[i]];
        SortsOneMore(required[..i], result, required[i]);
        var row := ReadRow(required[i]);
        if row.Err? { return Err(row.error); }
        if row.value.None? {
          result := result.(missing := result.missing + [required[i]]);
        } else {
          var bytes := Read(row.value.value.blob);
          if bytes.Ok? {
            result := result.(ready := result.ready + [required[i]]);
          } else if bytes.error.Crashed? {
            return Err(Crashed);
          } else {
            result := result.(unresolved := result.unresolved + [required[i]]);
          }
        }
      }
      assert required[..|required|] == required;
      return Ok(result);
    }

    /** Removes blobs no row selects, one at a time; wherever it stops, every selected blob is kept. */
    method CollectUnreferencedBlobs() returns (r: Result<seq<Text>, Error>)
      modifies this`blobs, this`script, this`faults, this`stops
      ensures Undisturbed() && (r == Err(Crashed) ==> stops > old(stops))
      ensures Sweeps(rows, old(blobs), blobs)
      ensures r.Ok? ==> forall a :: a in blobs <==> a in old(blobs) && Referenced(rows, a)
      ensures r.Ok? ==> NoDup(r.value) && forall a :: a in r.value <==> a in old(blobs) && a !in blobs
      ensures r.Err? ==> r == Err(Crashed) || faults > old(faults)
    {
      var why, written := Stops();
      if why.Some? { return Err(if why.value == Io then Database else why.value); }
      var referenced := set k | k in rows :: rows[k].blob;
      why, written := Stops();
      if why.Some? { return Err(why.value); }
      var remaining := blobs.Keys;
      var collected: seq<Text> := [];
      while remaining != {}
        invariant Undisturbed() && Sweeping(rows, old(blobs), blobs, referenced, remaining, collected)
      {
        var address :| address in remaining;
        remaining := remaining - {address};
        if address !in referenced {
          why, written := Stops();
          if why.Some? { return Err(why.value); }
          SweepOne(rows, old(blobs), blobs, referenced, remaining + {address}, collected, address);
          blobs := blobs - {address};
          collected := collected + [address];
        }
      }
      SweptAll(rows, old(blobs), blobs, referenced, collected);
      return Ok(collected);
    }

    /** Reclaims residue only when every required slot is ready; then exactly the selected blobs stay. */
    method FinalizeMigration(required: seq<Key>) returns (r: Result<Finalization, Error>)
      modifies this`blobs, this`script, this`faults, this`stops
      ensures Undisturbed() && (r.Err? ==> stops > old(stops))
      ensures Sweeps(rows, old(blobs), blobs)
      ensures blobs != old(blobs) ==> forall k :: k in required ==> k in rows && Intact(sha, blobs, rows[k].blob)
      ensures r.Ok? && !r.value.readiness.IsReady() ==> blobs == old(blobs) && r.value.collected == []
      ensures r.Ok? && r.value.readiness.IsReady() ==> forall a :: a in blobs <==> a in old(blobs) && Referenced(rows, a)
      ensures r.Ok? ==> forall a :: a in r.value.collected <==> a in old(blobs) && a !in blobs
      ensures r.Ok? && faults == old(faults) ==>
                (r.value.readiness.IsReady() <==> forall k :: k in required ==> k in rows && Intact(sha, old(blobs), rows[k].blob))
    {
      var readiness := VerifyMigrationReadiness(required);
      if readiness.Err? { return Err(readiness.error); }
      ReadyMeansAll(required, readiness.value);
      if !readiness.value.IsReady() {
        return Ok(Finalization(readiness.value, []));
      }
      ghost var before := blobs;
      var collected := CollectUnreferencedBlobs();
      if collected.Err? { return Err(collected.error); }
      return Ok(Finalization(readiness.value, collected.value));
    }

    /** Pruning states drops their rows in one transaction; their blobs become residue. */
    method PruneStates(states: set<int>) returns (r: Outcome<Error>)
      modifies this`rows, this`script, this`faults, this`stops
      ensures Undisturbed() && (r.Fail? ==> stops > old(stops))
      ensures rows == old(rows) || rows == (map k | k in old(rows) && k.state !in states :: old(rows)[k])
      ensures r.Pass? ==> forall k :: k in rows ==> k.state !in states
    {
      var why, written := Stops();
      if why.Some? { return Fail(if why.value == Io then Database else why.value); }
      rows := map k | k in rows && k.state !in states :: rows[k];
      why, written := Stops();
      return if why.Some? then Fail(Crashed) else Pass;
    }

    /** Power is lost between operations, and `after` is what it leaves. */
    method LosePower(after: map<Text, Blob>)
      modifies this`blobs
      ensures blobs == if Loses(old(blobs), after) then after else old(blobs)
    {
      if Loses(blobs, after) {
        blobs := after;
      }
    }

    /** One operation, wherever it stops. */
    method Perform(op: Operation)
      modifies this
      ensures old(exposed) ==> exposed
      ensures old(Sound(sha, blobs, rows)) && !op.PowerLoss? ==>
                Sound(sha, blobs, rows) && Keeps(old(blobs), old(rows), blobs, rows, Pruned([op]))
      ensures old(Durable(sha, blobs, rows)) && !exposed ==>
                Durable(sha, blobs, rows) && Keeps(old(blobs), old(rows), blobs, rows, Pruned([op]))
    {
      assert [op][..0] == [];
      match op {
        case Migrate(q) => var _ := MigrateDeclaration(q);
        case Prune(states) => var _ := PruneStates(states);
        case Collect => var _ := CollectUnreferencedBlobs();
        case Finalize(required) => var _ := FinalizeMigration(required);
        case PowerLoss(after) => LosePower(after);
      }
    }

    /** Any sequence of operations, each stopping anywhere. Without a power loss every committed row
        always resolves, unchanged unless pruned. With power losses the same holds as long as no row
        was committed over an unsettled blob. */
    method RunOperations(ops: seq<Operation>)
      modifies this
      ensures old(Sound(sha, blobs, rows)) && PowerHolds(ops) ==>
                Sound(sha, blobs, rows) && Keeps(old(blobs), old(rows), blobs, rows, Pruned(ops))
      ensures old(Durable(sha, blobs, rows)) && !exposed ==>
                Durable(sha, blobs, rows) && Keeps(old(blobs), old(rows), blobs, rows, Pruned(ops))
    {
      for i := 0 to |ops|
        invariant old(Sound(sha, blobs, rows)) && PowerHolds(ops) ==>
                    Sound(sha, blobs, rows) && Keeps(old(blobs), old(rows), blobs, rows, Pruned(ops[..i]))
        invariant old(Durable(sha, blobs, rows)) && !exposed ==>
                    Durable(sha, blobs, rows) && Keeps(old(blobs), old(rows), blobs, rows, Pruned(ops[..i]))
      {
        assert ops[..i + 1][..i] == ops[..i];
        Perform(ops[i]);
      }
      assert ops[..|ops|] == ops;
    }
  }

  // ---- what can go wrong --------------------------------------------------------------

  /** A process dies before the sync of a fresh blob and the migration is retried: the retry adopts the
      blob and commits, the slot resolves, and a power loss takes the blob from under the row. */
  method AdoptedBlobCanBeLost(sha: Text -> Text, q: Request)
      returns (store: MigrationStore, first: Result<Commit, Error>, second: Result<Commit, Error>, resolved: Result<Option<Text>, Error>)
    ensures first == Err(Crashed) && second == Ok(Committed) && resolved == Ok(Some(q.convertedBytes))
    ensures store.sha == sha && q.key in store.rows && !Sound(sha, store.blobs, store.rows)
  {
    store := new MigrationStore(sha, [Proceeds, Proceeds, Dies(0)]);
    first := store.MigrateDeclaration(q);
    second := store.MigrateDeclaration(q);
    resolved := store.ResolveMigratedBlob(q.key);
    store.LosePower(map[]);
  }

  /** A process dies while it writes: every retry is refused until a collection removes the torn blob. */
  method TornBlobBlocksRetry(sha: Text -> Text, q: Request, written: nat)
      returns (store: MigrationStore, first: Result<Commit, Error>, second: Result<Commit, Error>, third: Result<Commit, Error>)
    requires written <= |q.convertedBytes| && sha(q.convertedBytes[..written]) != sha(q.convertedBytes)
    ensures first == Err(Crashed) && second == Err(ContentAddressMismatch) && third == Ok(Committed)
    ensures store.sha == sha && q.key in store.rows && Durable(sha, store.blobs, store.rows)
  {
    store := new MigrationStore(sha, [Proceeds, Dies(written)]);
    first := store.MigrateDeclaration(q);
    second := store.MigrateDeclaration(q);
    var _ := store.CollectUnreferencedBlobs();
    third := store.MigrateDeclaration(q);
  }

  /** Operations must not overlap: a collection between the write and the commit of a migration leaves a
      row that does not resolve. */
  method SweptBeforeCommit(sha: Text -> Text, q: Request)
      returns (store: MigrationStore, address: Result<Text, Error>, collected: Result<seq<Text>, Error>, committed: Result<Commit, Error>)
    ensures address.Ok? && collected.Ok? && committed == Ok(Committed)
    ensures store.sha == sha && q.key in store.rows && !Sound(sha, store.blobs, store.rows)
  {
    store := new MigrationStore(sha, []);
    address := store.Write(q.convertedBytes);
    collected := store.CollectUnreferencedBlobs();
    committed := store.CommitRow(RowOf(sha, q));
  }
}
