/** Creating, adopting and reading back a tree marker. Every system call may fail, and any number of
    other processes may move before it. */
module TreeMarker {
  import opened Basics
  import opened Ordering
  import opened MarkerCodec
  import opened MarkerDisk

  datatype Path = UsrPath | MarkerPath

  datatype MarkerError =
    | Io
    | UnsafeDirectory
    | UnsafeMarker
    | Missing
    | TemporaryPresent
    | DecodeFailed(codec: CodecError)
    | TokenMismatch
    | MarkerChanged(path: Path)
    | TemporaryChanged

  datatype Witness = Witness(inode: nat, uid: nat, mode: nat, links: nat, length: nat)

  datatype RetainedMarker = RetainedMarker(token: Text, seen: Witness)

  datatype Reading = Read(bytes: Text) | Interrupted | Broken

  datatype Writing = Wrote(count: nat) | Signalled | Unwritten

  datatype Linking = Linked | Exists | Refused

  const MAX_INTERRUPTED_READ_ATTEMPTS: nat := 32

  predicate SafeDirectory(u: Usr) {
    u.uid == EFFECTIVE_USER && u.mode & 0xE00 == 0 && u.mode & 0x1C0 == 0x1C0 && u.mode & 0x012 == 0
  }

  predicate SameDirectory(u: Usr, w: Usr) {
    u.uid == w.uid && u.mode == w.mode
  }

  function WitnessOf(i: nat, n: Inode): Witness {
    Witness(i, n.uid, n.mode, n.links, |n.data|)
  }

  /** The file under the canonical name is one the readers refuse. */
  ghost predicate Foreign(sha: Checksum, s: Fs) {
    s.canonical.Some? && s.canonical.value in s.inodes && !Acceptable(sha, s.inodes[s.canonical.value])
  }

  /** The retained marker is the file under the canonical name. */
  ghost predicate Loaded(sha: Checksum, s: Fs, m: RetainedMarker) {
    && s.canonical == Some(m.seen.inode) && m.seen.inode in s.inodes
    && Acceptable(sha, s.inodes[m.seen.inode])
    && m.seen == WitnessOf(m.seen.inode, s.inodes[m.seen.inode])
    && Decode(sha, s.inodes[m.seen.inode].data) == Ok(m.token)
  }

  function Now(run: seq<Move>): Fs
    requires run != []
  {
    run[|run| - 1].fs
  }

  ghost predicate OnlyOthers(p: nat, run: seq<Move>, from: nat) {
    forall k :: from <= k < |run| ==> run[k].actor != Process(p)
  }

  /** Every move since `r` is legal. */
  ghost predicate Worked(sha: Checksum, r: seq<Move>, t: seq<Move>) {
    r != [] && r <= t && Stable(sha, Now(r), Now(t))
  }

  /** Every move since `r` is legal, and none is the process's own. */
  ghost predicate Watched(sha: Checksum, p: nat, r: seq<Move>, t: seq<Move>) {
    Worked(sha, r, t) && Private(p, Now(r), Now(t)) && OnlyOthers(p, t, |r|)
  }

  lemma WorkedOn(sha: Checksum, r: seq<Move>, t: seq<Move>, u: seq<Move>)
    requires Worked(sha, r, t) && Worked(sha, t, u)
    ensures Worked(sha, r, u)
  {
  }

  lemma WatchedOn(sha: Checksum, p: nat, r: seq<Move>, t: seq<Move>, u: seq<Move>)
    requires Watched(sha, p, r, t) && Watched(sha, p, t, u)
    ensures Watched(sha, p, r, u)
  {
    forall k | |r| <= k < |u|
      ensures u[k].actor != Process(p)
    {
      if k < |t| {
        assert u[k] == t[k];
      }
    }
  }

  lemma WatchedSelf(sha: Checksum, p: nat, r: seq<Move>)
    requires IsRun(sha, r)
    ensures Watched(sha, p, r, r)
  {
    RunIsConsistent(sha, r, |r| - 1);
  }

  /** At some moment since `from` the directory was the retained one. */
  ghost predicate Confirmed(w: Usr, run: seq<Move>, from: nat) {
    exists k :: from - 1 <= k < |run| && 0 <= k && SameDirectory(run[k].fs.usr, w)
  }

  /** At some moment since `from` the temporary name was absent. */
  ghost predicate Unobstructed(run: seq<Move>, from: nat) {
    exists k :: from - 1 <= k < |run| && 0 <= k && !run[k].fs.temporary
  }

  lemma SeenOn(w: Usr, r: seq<Move>, t: seq<Move>, from: nat, since: nat)
    requires r <= t && since <= from
    ensures Confirmed(w, r, from) ==> Confirmed(w, t, since)
    ensures Unobstructed(r, from) ==> Unobstructed(t, since)
  {
    if Confirmed(w, r, from) {
      var k :| from - 1 <= k < |r| && 0 <= k && SameDirectory(r[k].fs.usr, w);
      assert t[k] == r[k];
    }
    if Unobstructed(r, from) {
      var k :| from - 1 <= k < |r| && 0 <= k && !r[k].fs.temporary;
      assert t[k] == r[k];
    }
  }

  predicate HasCanonicalShape(n: Inode) {
    n.uid == EFFECTIVE_USER && n.mode == MARKER_MODE && n.links == 1 && |n.data| == FRAME_LENGTH
  }

  lemma OtherMoves(sha: Checksum, p: nat, q: nat, r: seq<Move>, next: Fs)
    requires IsRun(sha, r) && q != p && Step(sha, q, Now(r), next)
    ensures IsRun(sha, r + [Move(Process(q), next)]) && Watched(sha, p, r, r + [Move(Process(q), next)])
  {
    RunIsConsistent(sha, r, |r| - 1);
    StepKeeps(sha, q, Now(r), next);
    StepOfAnother(sha, p, q, Now(r), next);
    RunExtends(sha, r, Move(Process(q), next));
  }

  lemma OwnMove(sha: Checksum, p: nat, r: seq<Move>, next: Fs)
    requires IsRun(sha, r) && Step(sha, p, Now(r), next)
    ensures IsRun(sha, r + [Move(Process(p), next)]) && Worked(sha, r, r + [Move(Process(p), next)])
  {
    RunIsConsistent(sha, r, |r| - 1);
    StepKeeps(sha, p, Now(r), next);
    RunExtends(sha, r, Move(Process(p), next));
  }

  /** Whatever a recovery reads after a creator succeeded is that creator's marker. */
  lemma RecoveryAgrees(sha: Checksum, run: seq<Move>, j: nat, k: nat, i: nat, token: Text, m: RetainedMarker)
    requires IsRun(sha, run) && j <= k < |run| && Settled(sha, run[j].fs, i, token) && Loaded(sha, run[k].fs, m)
    ensures m.seen.inode == i && m.token == token
  {
    SettledForever(sha, run, j, k, i, token);
  }

  /** A file the process can reach through a descriptor; others leave it as it is. */
  ghost predicate Held(p: nat, s: Fs, i: nat) {
    i in s.inodes && (Anonymous(p, s, i) || s.canonical == Some(i))
  }

  /** One process's session with the directory. `since` is an earlier moment of the run after which
      the process only watched. */
  class TreeMarkerStore {
    const sha: Checksum
    const pid: nat
    const retained: Usr
    var fs: Fs
    ghost var run: seq<Move>
    /** System calls that failed. */
    ghost var faults: nat
    /** Reads that a signal interrupted. */
    ghost var signals: nat
    /** Frames given up after one interruption too many. */
    ghost var starved: nat

    constructor (sha: Checksum, pid: nat, retained: Usr, fs: Fs)
      requires Consistent(fs)
      ensures Recording() && this.sha == sha && this.pid == pid && this.retained == retained && this.fs == fs
      ensures run == [Move(Power, fs)] && faults == 0 && signals == 0 && starved == 0
    {
      this.sha, this.pid, this.retained, this.fs := sha, pid, retained, fs;
      run, faults, signals, starved := [Move(Power, fs)], 0, 0, 0;
    }

    /** The run is legal and leads to the present state. */
    ghost predicate Recording()
      reads this
    {
      IsRun(sha, run) && Now(run) == fs
    }

    ghost predicate Valid()
      reads this
    {
      Recording() && SafeDirectory(retained) && !retained.defaultAcl
    }

    /** The counters only grow. */
    twostate predicate Counted()
      reads this
    {
      old(faults) <= faults && old(signals) <= signals && old(starved) <= starved
    }

    /** A system call failed, or a frame was given up after one interruption too many. */
    twostate predicate Troubled()
      reads this
    {
      faults > old(faults) || starved > old(starved)
    }

    /** The error is the environment's doing: a failed system call, a frame that took too many
        interruptions, a default ACL, a changed directory, a temporary name, or a file under the canonical name that no creator published. */
    twostate predicate Explains(e: MarkerError)
      reads this
    {
      match e
      case Io => Troubled() || fs.usr.defaultAcl
      case UnsafeDirectory => fs.usr != retained
      case MarkerChanged(path) => path == UsrPath && fs.usr != retained
      case TemporaryPresent => fs.temporary
      case Missing => fs.canonical.None?
      case UnsafeMarker => Foreign(sha, fs)
      case DecodeFailed(_) => Foreign(sha, fs)
      case TokenMismatch => false
      case TemporaryChanged => false
    }

    // ---- the environment --------------------------------------------------------------

    /** Any number of moves by other processes. */
    method Interfere(ghost since: seq<Move>)
      requires Recording() && Watched(sha, pid, since, run)
      modifies this`fs, this`run
      ensures Recording() && Watched(sha, pid, since, run)
    {
      var n: nat := *;
      while n > 0
        invariant Recording() && Watched(sha, pid, since, run)
      {
        var next: Fs := *;
        var q: nat := *;
        if q != pid && Step(sha, q, fs, next) {
          ghost var t := run + [Move(Process(q), next)];
          OtherMoves(sha, pid, q, run, next);
          WatchedOn(sha, pid, since, run, t);
          fs := next;
          run := t;
        }
        n := n - 1;
      }
    }

    /** One move of this process. */
    method Act(next: Fs)
      requires Recording() && Step(sha, pid, fs, next)
      modifies this`fs, this`run
      ensures Recording() && Worked(sha, old(run), run) && fs == next
    {
      OwnMove(sha, pid, run, next);
      fs := next;
      run := run + [Move(Process(pid), next)];
    }

    /** A system call that may fail, after any moves by others. */
    method Fails(ghost since: seq<Move>) returns (broken: bool)
      requires Recording() && Watched(sha, pid, since, run)
      modifies this`fs, this`run, this`faults
      ensures Recording() && Watched(sha, pid, since, run)
      ensures faults == old(faults) + if broken then 1 else 0
    {
      Interfere(since);
      broken := *;
      if broken {
        faults := faults + 1;
      }
    }

    // ---- reading calls ----------------------------------------------------------------

    method StatUsr(ghost since: seq<Move>) returns (r: Result<Usr, MarkerError>)
      requires Recording() && Watched(sha, pid, since, run)
      modifies this`fs, this`run, this`faults
      ensures Recording() && Watched(sha, pid, since, run)
      ensures faults == old(faults) + if r.Err? then 1 else 0
      ensures r == Ok(fs.usr) || r == Err(Io)
    {
      var broken := Fails(since);
      return if broken then Err(Io) else Ok(fs.usr);
    }

    method OpenCanonical(ghost since: seq<Move>) returns (r: Result<Option<nat>, MarkerError>)
      requires Valid() && Watched(sha, pid, since, run)
      modifies this`fs, this`run, this`faults
      ensures Valid() && Watched(sha, pid, since, run)
      ensures faults == old(faults) + if r.Err? then 1 else 0
      ensures r == Ok(fs.canonical) || r == Err(Io)
      ensures r.Ok? && r.value.Some? ==> Held(pid, fs, r.value.value)
    {
      var broken := Fails(since);
      RunIsConsistent(sha, run, |run| - 1);
      return if broken then Err(Io) else Ok(fs.canonical);
    }

    method Stat(i: nat, ghost since: seq<Move>) returns (r: Result<Witness, MarkerError>)
      requires Valid() && Watched(sha, pid, since, run) && Held(pid, Now(since), i)
      modifies this`fs, this`run, this`faults
      ensures Valid() && Watched(sha, pid, since, run)
      ensures faults == old(faults) + if r.Err? then 1 else 0
      ensures r == Ok(WitnessOf(i, Now(since).inodes[i])) || r == Err(Io)
    {
      var broken := Fails(since);
      return if broken then Err(Io) else Ok(WitnessOf(i, fs.inodes[i]));
    }

    /** At least one byte, unless the file ends before `offset`. */
    method ReadAt(i: nat, offset: nat, room: nat, ghost since: seq<Move>) returns (r: Reading)
      requires Valid() && Watched(sha, pid, since, run) && Held(pid, Now(since), i) && room > 0
      modifies this`fs, this`run, this`faults, this`signals
      ensures Valid() && Watched(sha, pid, since, run)
      ensures faults == old(faults) + if r.Broken? then 1 else 0
      ensures signals == old(signals) + if r.Interrupted? then 1 else 0
      ensures r.Read? && r.bytes == [] ==> |Now(since).inodes[i].data| <= offset
      ensures r.Read? && r.bytes != [] ==>
                && |r.bytes| <= room && offset + |r.bytes| <= |Now(since).inodes[i].data|
                && r.bytes == Now(since).inodes[i].data[offset..offset + |r.bytes|]
    {
      var broken := Fails(since);
      if broken { return Broken; }
      var interrupted: bool := *;
      if interrupted {
        signals := signals + 1;
        return Interrupted;
      }
      var data := fs.inodes[i].data;
      if |data| <= offset { return Read([]); }
      var n: int := *;
      var count := if 0 < n <= room && offset + n <= |data| then n else 1;
      return Read(data[offset..offset + count]);
    }

    // ---- checks built from reading calls ----------------------------------------------

    method ValidateUsr(ghost since: seq<Move>) returns (r: Outcome<MarkerError>)
      requires Valid() && Watched(sha, pid, since, run)
      modifies this`fs, this`run, this`faults
      ensures Valid() && Watched(sha, pid, since, run) && old(faults) <= faults
      ensures r.Fail? ==> Explains(r.error) && r.error != Missing
      ensures r.Pass? ==> Confirmed(retained, run, |since|) && !fs.usr.defaultAcl
    {
      var u := StatUsr(since);
      if u.Err? { return Fail(u.error); }
      if !SafeDirectory(u.value) { return Fail(UnsafeDirectory); }
      if !SameDirectory(u.value, retained) { return Fail(MarkerChanged(UsrPath)); }
      ghost var t := run;
      WatchedSelf(sha, pid, t);
      var v := StatUsr(t);
      WatchedOn(sha, pid, since, t, run);
      if v.Err? { return Fail(v.error); }
      if v.value.defaultAcl { return Fail(Io); }
      assert run[|t| - 1] == t[|t| - 1];
      return Pass;
    }

    /** `open`: the witness of the given directory is retained once the reopened one matches it and
        carries no default ACL. */
    static method Open(sha: Checksum, pid: nat, fs: Fs) returns (store: TreeMarkerStore, r: Outcome<MarkerError>)
      requires Consistent(fs)
      ensures fresh(store) && store.Recording() && store.sha == sha && store.pid == pid
      ensures Watched(sha, pid, [Move(Power, fs)], store.run)
      ensures r.Pass? ==> store.Valid() && SameDirectory(store.retained, fs.usr) && !store.fs.usr.defaultAcl
      ensures r.Fail? ==>
                match r.error
                case UnsafeDirectory => !SafeDirectory(fs.usr) || !SafeDirectory(store.fs.usr)
                case MarkerChanged(path) => path == UsrPath && !SameDirectory(store.fs.usr, fs.usr)
                case Io => store.faults > 0 || store.fs.usr.defaultAcl
                case _ => false
    {
      store := new TreeMarkerStore(sha, pid, fs.usr.(defaultAcl := false), fs);
      ghost var since := store.run;
      WatchedSelf(sha, pid, since);
      var broken := store.Fails(since);
      if broken { return store, Fail(Io); }
      if !SafeDirectory(fs.usr) { return store, Fail(UnsafeDirectory); }
      var actual := store.StatUsr(since);
      if actual.Err? { return store, Fail(actual.error); }
      if !SafeDirectory(actual.value) { return store, Fail(UnsafeDirectory); }
      if !SameDirectory(actual.value, fs.usr) { return store, Fail(MarkerChanged(UsrPath)); }
      var acl := store.StatUsr(since);
      if acl.Err? { return store, Fail(acl.error); }
      if acl.value.defaultAcl { return store, Fail(Io); }
      return store, Pass;
    }

    method RejectTemporary(ghost since: seq<Move>) returns (r: Outcome<MarkerError>)
      requires Valid() && Watched(sha, pid, since, run)
      modifies this`fs, this`run, this`faults
      ensures Valid() && Watched(sha, pid, since, run) && old(faults) <= faults
      ensures r.Fail? ==> Explains(r.error) && r.error != Missing
      ensures r.Pass? ==> !fs.temporary
    {
      var broken := Fails(since);
      return if broken then Fail(Io) else if fs.temporary then Fail(TemporaryPresent) else Pass;
    }

    method CanonicalWitness(i: nat, ghost since: seq<Move>) returns (r: Result<Witness, MarkerError>)
      requires Valid() && Watched(sha, pid, since, run) && Held(pid, Now(since), i)
      modifies this`fs, this`run, this`faults
      ensures Valid() && Watched(sha, pid, since, run)
      ensures faults == old(faults) + if r == Err(Io) then 1 else 0
      ensures r.Err? && r != Err(Io) ==> r == Err(UnsafeMarker) && !HasCanonicalShape(Now(since).inodes[i])
      ensures r.Ok? ==> r.value == WitnessOf(i, Now(since).inodes[i]) && HasCanonicalShape(Now(since).inodes[i])
    {
      var w := Stat(i, since);
      if w.Err? { return w; }
      if w.value.uid == EFFECTIVE_USER && w.value.mode == MARKER_MODE && w.value.links == 1 && w.value.length == FRAME_LENGTH {
        return w;
      }
      return Err(UnsafeMarker);
    }

    method ReadExactFrame(i: nat, ghost since: seq<Move>) returns (r: Result<Text, MarkerError>)
      requires Valid() && Watched(sha, pid, since, run) && Held(pid, Now(since), i)
      modifies this
      ensures Valid() && Watched(sha, pid, since, run) && Counted()
      ensures r.Ok? ==> r.value == Now(since).inodes[i].data && |r.value| == FRAME_LENGTH
      ensures r.Ok? ==> signals <= old(signals) + MAX_INTERRUPTED_READ_ATTEMPTS && faults == old(faults)
      ensures starved == old(starved) + if signals == old(signals) + MAX_INTERRUPTED_READ_ATTEMPTS + 1 then 1 else 0
      ensures r.Err? ==> r == Err(Io) && (Troubled() || |Now(since).inodes[i].data| != FRAME_LENGTH)
    {
      ghost var data := Now(since).inodes[i].data;
      var frame: Text := [];
      var interrupted := 0;
      while |frame| < FRAME_LENGTH
        invariant Valid() && Watched(sha, pid, since, run)
        invariant |frame| <= |data| && frame == data[..|frame|] && |frame| <= FRAME_LENGTH
        invariant interrupted <= MAX_INTERRUPTED_READ_ATTEMPTS && signals == old(signals) + interrupted
        invariant faults == old(faults) && starved == old(starved)
        decreases FRAME_LENGTH - |frame| + MAX_INTERRUPTED_READ_ATTEMPTS - interrupted
      {
        var chunk := ReadAt(i, |frame|, FRAME_LENGTH - |frame|, since);
        match chunk {
          case Read(bytes) =>
            if bytes == [] { return Err(Io); }
            frame := frame + bytes;
          case Interrupted =>
            interrupted := interrupted + 1;
            if interrupted > MAX_INTERRUPTED_READ_ATTEMPTS {
              starved := starved + 1;
              return Err(Io);
            }
          case Broken =>
            return Err(Io);
        }
      }
      while true
        invariant Valid() && Watched(sha, pid, since, run)
        invariant interrupted <= MAX_INTERRUPTED_READ_ATTEMPTS && signals == old(signals) + interrupted
        invariant faults == old(faults) && starved == old(starved)
        decreases MAX_INTERRUPTED_READ_ATTEMPTS - interrupted
      {
        var trailing := ReadAt(i, FRAME_LENGTH, 1, since);
        match trailing {
          case Read(bytes) =>
            if bytes == [] { return Ok(frame); }
            return Err(Io);
          case Interrupted =>
            interrupted := interrupted + 1;
            if interrupted > MAX_INTERRUPTED_READ_ATTEMPTS {
              starved := starved + 1;
              return Err(Io);
            }
          case Broken =>
            return Err(Io);
        }
      }
    }

    /** `read_and_decode_with_links`, for one link. */
    method ReadAndDecode(i: nat, expected: Witness, ghost since: seq<Move>) returns (r: Result<Text, MarkerError>)
      requires Valid() && Watched(sha, pid, since, run) && Held(pid, Now(since), i)
      requires HasCanonicalShape(Now(since).inodes[i]) && expected == WitnessOf(i, Now(since).inodes[i])
      modifies this
      ensures Valid() && Watched(sha, pid, since, run) && Counted()
      ensures r.Ok? ==> Decode(sha, Now(since).inodes[i].data) == Ok(r.value)
      ensures r.Err? ==> (r == Err(Io) && Troubled())
                         || (r.error.DecodeFailed? && Decode(sha, Now(since).inodes[i].data).Err?)
    {
      var bytes := ReadExactFrame(i, since);
      if bytes.Err? { return bytes; }
      var again := CanonicalWitness(i, since);
      if again.Err? { return Err(again.error); }
      if again.value != expected { return Err(MarkerChanged(MarkerPath)); }
      match Decode(sha, bytes.value)
      case Ok(token) => return Ok(token);
      case Err(e) => return Err(DecodeFailed(e));
    }

    /** Opens, checks and decodes the file under the canonical name. */
    method LoadCanonical(ghost since: seq<Move>) returns (r: Result<Option<RetainedMarker>, MarkerError>)
      requires Valid() && Watched(sha, pid, since, run)
      modifies this
      ensures Valid() && Watched(sha, pid, since, run) && Counted()
      ensures r == Ok(None) ==> fs.canonical.None?
      ensures r.Ok? && r.value.Some? ==> Loaded(sha, fs, r.value.value)
      ensures r.Err? ==> (r == Err(Io) && Troubled()) || (Foreign(sha, fs) && (r.error.UnsafeMarker? || r.error.DecodeFailed?))
    {
      var probe := OpenCanonical(since);
      if probe.Err? { return Err(probe.error); }
      if probe.value.None? { return Ok(None); }
      var i := probe.value.value;
      ghost var t := run;
      WatchedSelf(sha, pid, t);
      r := LoadNamed(i, t);
      WatchedOn(sha, pid, since, t, run);
    }

    /** The rest of `load_canonical`, once the name is known to denote file i. */
    method LoadNamed(i: nat, ghost since: seq<Move>) returns (r: Result<Option<RetainedMarker>, MarkerError>)
      requires Valid() && Watched(sha, pid, since, run) && Now(since).canonical == Some(i) && Held(pid, Now(since), i)
      modifies this
      ensures Valid() && Watched(sha, pid, since, run) && Counted()
      ensures r.Ok? ==> r.value.Some? && Loaded(sha, fs, r.value.value)
      ensures r.Err? ==> (r == Err(Io) && Troubled()) || (Foreign(sha, fs) && (r.error.UnsafeMarker? || r.error.DecodeFailed?))
    {
      var w := CanonicalWitness(i, since);
      if w.Err? { return Err(w.error); }
      var file := OpenCanonical(since);
      if file.Err? { return Err(file.error); }
      if file.value.None? { return Err(MarkerChanged(MarkerPath)); }
      var again := CanonicalWitness(file.value.value, since);
      if again.Err? { return Err(again.error); }
      if again.value != w.value { return Err(MarkerChanged(MarkerPath)); }
      var token := ReadAndDecode(file.value.value, w.value, since);
      if token.Err? { return Err(token.error); }
      return Ok(Some(RetainedMarker(token.value, w.value)));
    }

    /** The retained file and the canonical name still denote the decoded marker. */
    method Revalidate(m: RetainedMarker, ghost since: seq<Move>) returns (r: Outcome<MarkerError>)
      requires Valid() && Watched(sha, pid, since, run) && Loaded(sha, Now(since), m)
      modifies this
      ensures Valid() && Watched(sha, pid, since, run) && Counted()
      ensures r.Fail? ==> Explains(r.error) && r.error != Missing
      ensures r.Pass? ==> Confirmed(retained, run, |since|) && Unobstructed(run, |since|)
    {
      r := ValidateUsr(since);
      if r.Fail? { return; }
      ghost var t := run;
      WatchedSelf(sha, pid, t);
      r := RejectTemporary(t);
      WatchedOn(sha, pid, since, t, run);
      if r.Fail? { return; }
      ghost var u := run;
      WatchedSelf(sha, pid, u);
      r := RevalidateFile(m, u);
      WatchedOn(sha, pid, since, u, run);
      assert u[|u| - 1] == run[|u| - 1];
      SeenOn(retained, t, run, |since|, |since|);
    }

    method RevalidateFile(m: RetainedMarker, ghost since: seq<Move>) returns (r: Outcome<MarkerError>)
      requires Valid() && Watched(sha, pid, since, run) && Loaded(sha, Now(since), m)
      modifies this
      ensures Valid() && Watched(sha, pid, since, run) && Counted()
      ensures r.Fail? ==> Explains(r.error) && r.error != Missing
    {
      var i := m.seen.inode;
      var w := CanonicalWitness(i, since);
      if w.Err? { return Fail(w.error); }
      if w.value != m.seen { return Fail(MarkerChanged(MarkerPath)); }
      var token := ReadAndDecode(i, m.seen, since);
      if token.Err? { return Fail(token.error); }
      if token.value != m.token { return Fail(TokenMismatch); }
      var named := LoadCanonical(since);
      if named.Err? { return Fail(named.error); }
      if named.value.None? { return Fail(MarkerChanged(MarkerPath)); }
      if named.value.value.seen != m.seen || named.value.value.token != m.token { return Fail(MarkerChanged(MarkerPath)); }
      return Pass;
    }

    /** Reads canonical evidence only; no move of the run is this process's own. */
    method ReadForRecovery() returns (r: Result<RetainedMarker, MarkerError>)
      requires Valid()
      modifies this
      ensures Valid() && Watched(sha, pid, old(run), run)
      ensures r.Ok? ==> Loaded(sha, fs, r.value) && Confirmed(retained, run, |old(run)|) && Unobstructed(run, |old(run)|)
      ensures r.Err? ==> Explains(r.error)
    {
      ghost var since := run;
      WatchedSelf(sha, pid, run);
      var usr := ValidateUsr(since);
      if usr.Fail? { return Err(usr.error); }
      var temporary := RejectTemporary(since);
      if temporary.Fail? { return Err(temporary.error); }
      var m := LoadCanonical(since);
      if m.Err? { return Err(m.error); }
      if m.value.None? { return Err(Missing); }
      ghost var t := run;
      WatchedSelf(sha, pid, t);
      var again := Revalidate(m.value.value, t);
      WatchedOn(sha, pid, since, t, run);
      SeenOn(retained, run, run, |t|, |since|);
      if again.Fail? { return Err(again.error); }
      return Ok(m.value.value);
    }

    /** Recovery that must find the journal's token. */
    method ReadExpectedForRecovery(expected: Text) returns (r: Result<RetainedMarker, MarkerError>)
      requires Valid()
      modifies this
      ensures Valid() && Watched(sha, pid, old(run), run)
      ensures r.Ok? ==> Loaded(sha, fs, r.value) && r.value.token == expected
      ensures r == Err(TokenMismatch) ==>
                exists m :: Loaded(sha, fs, m) && m.token != expected
      ensures r.Err? && r != Err(TokenMismatch) ==> Explains(r.error)
    {
      r := ReadForRecovery();
      if r.Ok? && r.value.token != expected {
        return Err(TokenMismatch);
      }
    }

    // ---- calls that change the directory or a file ------------------------------------

    method SyncFile(i: nat) returns (r: Outcome<MarkerError>)
      requires Valid() && Held(pid, fs, i)
      modifies this`fs, this`run, this`faults
      ensures Valid() && Worked(sha, old(run), run)
      ensures faults == old(faults) + if r.Fail? then 1 else 0
      ensures Held(pid, fs, i) && Same(old(fs.inodes[i]), fs.inodes[i])
      ensures r.Pass? ==> fs.inodes[i].synced
      ensures r.Fail? ==> r.error == Io
    {
      ghost var t := run;
      WatchedSelf(sha, pid, t);
      var broken := Fails(t);
      if broken { return Fail(Io); }
      ghost var u := run;
      var next := fs.(inodes := fs.inodes[i := fs.inodes[i].(synced := true)]);
      assert Replaces(fs, next, i, fs.inodes[i].(synced := true));
      Act(next);
      WorkedOn(sha, t, u, run);
      return Pass;
    }

    method SyncUsr() returns (r: Outcome<MarkerError>)
      requires Valid()
      modifies this`fs, this`run, this`faults
      ensures Valid() && Worked(sha, old(run), run) && Private(pid, old(fs), fs)
      ensures faults == old(faults) + if r.Fail? then 1 else 0
      ensures r.Pass? ==> fs.durable == fs.canonical
      ensures r.Fail? ==> r.error == Io
    {
      ghost var t := run;
      WatchedSelf(sha, pid, t);
      var broken := Fails(t);
      if broken { return Fail(Io); }
      ghost var u := run;
      Act(fs.(durable := fs.canonical));
      WorkedOn(sha, t, u, run);
      return Pass;
    }

    /** `O_TMPFILE`: a file with no name, of whatever mode the umask leaves. */
    method CreateUnnamed() returns (r: Result<nat, MarkerError>)
      requires Valid()
      modifies this`fs, this`run, this`faults
      ensures Valid() && Worked(sha, old(run), run)
      ensures faults == old(faults) + if r.Err? then 1 else 0
      ensures r.Err? ==> r.error == Io
      ensures r.Ok? ==> Anonymous(pid, fs, r.value) && fs.inodes[r.value].data == [] && fs.inodes[r.value].uid == EFFECTIVE_USER
    {
      ghost var t := run;
      WatchedSelf(sha, pid, t);
      var broken := Fails(t);
      var i: nat, mode: nat := *, *;
      if broken || i in fs.inodes {
        faults := if broken then faults else faults + 1;
        return Err(Io);
      }
      ghost var u := run;
      var next := fs.(inodes := fs.inodes[i := Inode(pid, EFFECTIVE_USER, mode, 0, [], false)]);
      assert Replaces(fs, next, i, next.inodes[i]);
      Act(next);
      WorkedOn(sha, t, u, run);
      return Ok(i);
    }

    /** chmod, truncate or a write on a file of one's own that has no name. */
    method Shape(i: nat, mode: nat, data: Text) returns (r: Outcome<MarkerError>)
      requires Valid() && Anonymous(pid, fs, i)
      modifies this`fs, this`run, this`faults
      ensures Valid() && Worked(sha, old(run), run) && Anonymous(pid, fs, i)
      ensures faults == old(faults) + if r.Fail? then 1 else 0
      ensures r.Pass? ==> fs.inodes[i] == old(fs.inodes[i]).(mode := mode, data := data, synced := false)
      ensures r.Fail? ==> r.error == Io && fs.inodes[i] == old(fs.inodes[i])
    {
      ghost var t := run;
      WatchedSelf(sha, pid, t);
      var broken := Fails(t);
      if broken { return Fail(Io); }
      ghost var u := run;
      var next := fs.(inodes := fs.inodes[i := fs.inodes[i].(mode := mode, data := data, synced := false)]);
      assert Replaces(fs, next, i, next.inodes[i]);
      Act(next);
      WorkedOn(sha, t, u, run);
      return Pass;
    }

    /** The atomic no-replace link. */
    method LinkNoReplace(i: nat) returns (r: Linking)
      requires Valid() && Anonymous(pid, fs, i) && Sealed(sha, fs.inodes[i])
      modifies this`fs, this`run, this`faults
      ensures Valid() && Worked(sha, old(run), run)
      ensures faults == old(faults) + if r.Refused? then 1 else 0
      ensures r.Linked? ==> fs.canonical == Some(i) && i in fs.inodes && fs.inodes[i] == old(fs.inodes[i]).(links := 1)
      ensures r.Exists? ==> fs.canonical.Some?
    {
      ghost var t := run;
      WatchedSelf(sha, pid, t);
      var broken := Fails(t);
      if broken { return Refused; }
      if fs.canonical.Some? { return Exists; }
      ghost var u := run;
      Act(fs.(canonical := Some(i), inodes := fs.inodes[i := fs.inodes[i].(links := 1)]));
      WorkedOn(sha, t, u, run);
      return Linked;
    }

    /** A kernel-random token; the all-zero value is refused. */
    method GenerateToken() returns (r: Result<Text, MarkerError>)
      modifies this`faults
      ensures faults == old(faults) + if r.Err? then 1 else 0
      ensures r.Ok? ==> IsToken(r.value)
      ensures r.Err? ==> r.error == Io
    {
      var token: Text := *;
      if IsToken(token) { return Ok(token); }
      faults := faults + 1;
      return Err(Io);
    }

    // ---- publication ------------------------------------------------------------------

    /** Writes a nonempty prefix of `rest` at the end of the file. `budget` is how many more signals
        will interrupt the call. */
    method WriteAt(i: nat, rest: Text, budget: nat) returns (r: Writing)
      requires Valid() && Anonymous(pid, fs, i) && rest != []
      modifies this`fs, this`run, this`faults
      ensures Valid() && Worked(sha, old(run), run) && Anonymous(pid, fs, i)
      ensures faults == old(faults) + if r.Unwritten? then 1 else 0
      ensures r.Wrote? ==> 0 < r.count <= |rest|
                           && fs.inodes[i] == old(fs.inodes[i]).(data := old(fs.inodes[i]).data + rest[..r.count], synced := false)
      ensures r.Signalled? ==> budget > 0 && fs.inodes[i] == old(fs.inodes[i])
    {
      var signalled: bool, count: int := *, *;
      if signalled && budget > 0 {
        WatchedSelf(sha, pid, run);
        return Signalled;
      }
      var n := if 0 < count <= |rest| then count else 1;
      var w := Shape(i, fs.inodes[i].mode, fs.inodes[i].data + rest[..n]);
      return if w.Pass? then Wrote(n) else Unwritten;
    }

    method WriteAllAt(i: nat, bytes: Text) returns (r: Outcome<MarkerError>)
      requires Valid() && Anonymous(pid, fs, i) && fs.inodes[i].data == []
      modifies this`fs, this`run, this`faults
      ensures Valid() && Worked(sha, old(run), run) && Anonymous(pid, fs, i) && old(faults) <= faults
      ensures r.Pass? ==> fs.inodes[i].(synced := false) == old(fs.inodes[i]).(data := bytes, synced := false)
      ensures r.Fail? ==> r.error == Io && faults > old(faults)
    {
      ghost var since, n := run, fs.inodes[i];
      WatchedSelf(sha, pid, run);
      var written := 0;
      var signals: nat := *;
      while written < |bytes|
        invariant Valid() && Worked(sha, since, run) && Anonymous(pid, fs, i) && faults == old(faults)
        invariant written <= |bytes| && fs.inodes[i].(synced := false) == n.(data := bytes[..written], synced := false)
        decreases |bytes| - written, signals
      {
        ghost var t := run;
        var w := WriteAt(i, bytes[written..], signals);
        WorkedOn(sha, since, t, run);
        match w {
          case Wrote(count) =>
            assert bytes[..written] + bytes[written..][..count] == bytes[..written + count];
            written := written + count;
          case Signalled =>
            signals := signals - 1;
          case Unwritten =>
            return Fail(Io);
        }
      }
      assert bytes[..written] == bytes;
      return Pass;
    }

    /** `anonymous_witness`: a file of ours that still has no name, of the given mode and length. */
    method AnonymousWitness(i: nat, mode: nat, length: nat, ghost since: seq<Move>) returns (r: Result<Witness, MarkerError>)
      requires Valid() && Watched(sha, pid, since, run) && Anonymous(pid, Now(since), i)
      requires Now(since).inodes[i].uid == EFFECTIVE_USER && Now(since).inodes[i].mode == mode
      requires |Now(since).inodes[i].data| == length
      modifies this`fs, this`run, this`faults
      ensures Valid() && Watched(sha, pid, since, run)
      ensures faults == old(faults) + if r.Err? then 1 else 0
      ensures r == Ok(WitnessOf(i, Now(since).inodes[i])) || r == Err(Io)
    {
      var w := Stat(i, since);
      if w.Err? { return w; }
      if w.value.uid == EFFECTIVE_USER && w.value.links == 0 && w.value.mode == mode && w.value.length == length {
        return w;
      }
      return Err(UnsafeMarker);
    }

    method CreateAnonymousTemporary() returns (r: Result<Witness, MarkerError>)
      requires Valid()
      modifies this`fs, this`run, this`faults
      ensures Valid() && Worked(sha, old(run), run) && old(faults) <= faults
      ensures r.Err? ==> r == Err(Io) && faults > old(faults)
      ensures r.Ok? ==> Anonymous(pid, fs, r.value.inode) && fs.inodes[r.value.inode].uid == EFFECTIVE_USER
    {
      ghost var since := run;
      var i := CreateUnnamed();
      if i.Err? { return Err(i.error); }
      ghost var t := run;
      var mode := Shape(i.value, TEMPORARY_MODE, []);
      WorkedOn(sha, since, t, run);
      if mode.Fail? { return Err(mode.error); }
      ghost var u := run;
      WatchedSelf(sha, pid, u);
      r := AnonymousWitness(i.value, TEMPORARY_MODE, 0, u);
      WorkedOn(sha, since, u, run);
    }

    /** Fills and seals a file: frame, sync, read-only mode, sync. */
    method SealFrame(i: nat, token: Text) returns (r: Outcome<MarkerError>)
      requires Valid() && IsToken(token) && Anonymous(pid, fs, i) && fs.inodes[i].uid == EFFECTIVE_USER
      modifies this`fs, this`run, this`faults
      ensures Valid() && Worked(sha, old(run), run) && Anonymous(pid, fs, i) && old(faults) <= faults
      ensures r.Pass? ==> fs.inodes[i] == Inode(pid, EFFECTIVE_USER, MARKER_MODE, 0, Encode(sha, token), true)
      ensures r.Fail? ==> r == Fail(Io) && faults > old(faults)
    {
      ghost var since := run;
      r := Shape(i, TEMPORARY_MODE, fs.inodes[i].data);
      if r.Fail? { return; }
      ghost var t := run;
      r := Shape(i, TEMPORARY_MODE, []);
      WorkedOn(sha, since, t, run);
      if r.Fail? { return; }
      t := run;
      r := WriteAllAt(i, Encode(sha, token));
      WorkedOn(sha, since, t, run);
      if r.Fail? { return; }
      t := run;
      r := SyncFile(i);
      WorkedOn(sha, since, t, run);
      if r.Fail? { return; }
      t := run;
      r := Shape(i, MARKER_MODE, fs.inodes[i].data);
      WorkedOn(sha, since, t, run);
      if r.Fail? { return; }
      t := run;
      r := SyncFile(i);
      WorkedOn(sha, since, t, run);
    }

    /** Writes, seals and reads back; afterwards the file may be published. */
    method WriteCompleteTemporary(temporary: Witness, token: Text) returns (r: Result<Witness, MarkerError>)
      requires Valid() && IsToken(token) && Anonymous(pid, fs, temporary.inode)
      requires fs.inodes[temporary.inode].uid == EFFECTIVE_USER
      modifies this
      ensures Valid() && Worked(sha, old(run), run) && Counted()
      ensures r.Ok? ==> Anonymous(pid, fs, temporary.inode) && r.value.inode == temporary.inode
      ensures r.Ok? ==> fs.inodes[temporary.inode] == Inode(pid, EFFECTIVE_USER, MARKER_MODE, 0, Encode(sha, token), true)
      ensures r.Err? ==> r == Err(Io) && Troubled()
    {
      var i := temporary.inode;
      ghost var since := run;
      var sealing := SealFrame(i, token);
      if sealing.Fail? { return Err(sealing.error); }
      DecodeInvertsEncode(sha, token);
      ghost var t := run;
      WatchedSelf(sha, pid, t);
      r := VerifyTemporary(temporary, token, t);
      WorkedOn(sha, since, t, run);
    }

    method VerifyTemporary(temporary: Witness, token: Text, ghost since: seq<Move>) returns (r: Result<Witness, MarkerError>)
      requires Valid() && Watched(sha, pid, since, run) && IsToken(token) && |Encode(sha, token)| == FRAME_LENGTH
      requires Anonymous(pid, Now(since), temporary.inode)
      requires Now(since).inodes[temporary.inode] == Inode(pid, EFFECTIVE_USER, MARKER_MODE, 0, Encode(sha, token), true)
      modifies this
      ensures Valid() && Watched(sha, pid, since, run) && Counted()
      ensures r.Ok? ==> r.value.inode == temporary.inode
      ensures r.Err? ==> r == Err(Io) && Troubled()
    {
      var i := temporary.inode;
      var w := AnonymousWitness(i, MARKER_MODE, FRAME_LENGTH, since);
      if w.Err? { return w; }
      if w.value.inode != temporary.inode { return Err(TemporaryChanged); }
      var bytes := ReadExactFrame(i, since);
      if bytes.Err? { return Err(bytes.error); }
      var again := AnonymousWitness(i, MARKER_MODE, FRAME_LENGTH, since);
      if again.Err? { return again; }
      if again.value != w.value { return Err(TemporaryChanged); }
      DecodeInvertsEncode(sha, token);
      match Decode(sha, bytes.value)
      case Err(e) => return Err(DecodeFailed(e));
      case Ok(actual) => return if actual != token then Err(TokenMismatch) else w;
    }

    /** Makes a loaded marker durable and checks it once more. */
    method SettleAdopted(m: RetainedMarker) returns (r: Outcome<MarkerError>)
      requires Valid() && Loaded(sha, fs, m)
      modifies this
      ensures Valid() && Worked(sha, old(run), run) && Counted()
      ensures r.Pass? ==> Settled(sha, fs, m.seen.inode, m.token)
      ensures r.Pass? ==> Confirmed(retained, run, |old(run)|) && Unobstructed(run, |old(run)|)
      ensures r.Fail? ==> Explains(r.error) && r.error != Missing
    {
      ghost var since := run;
      WatchedSelf(sha, pid, since);
      r := RejectTemporary(since);
      if r.Fail? { return; }
      ghost var t := run;
      r := SyncFile(m.seen.inode);
      WorkedOn(sha, since, t, run);
      if r.Fail? { return; }
      ghost var u := run;
      r := SyncUsr();
      WorkedOn(sha, since, u, run);
      if r.Fail? { return; }
      ghost var v := run;
      WatchedSelf(sha, pid, v);
      r := Revalidate(m, v);
      WorkedOn(sha, since, v, run);
      SeenOn(retained, run, run, |v|, |since|);
    }

    /** Another creator published first: take its marker. */
    method AdoptRacingCanonical() returns (r: Result<RetainedMarker, MarkerError>)
      requires Valid() && fs.canonical.Some?
      modifies this
      ensures Valid() && Worked(sha, old(run), run) && Counted()
      ensures r.Ok? ==> Settled(sha, fs, r.value.seen.inode, r.value.token)
      ensures r.Ok? ==> Confirmed(retained, run, |old(run)|) && Unobstructed(run, |old(run)|)
      ensures r.Err? ==> Explains(r.error) && r.error != Missing
    {
      ghost var since := run;
      WatchedSelf(sha, pid, since);
      var m := LoadCanonical(since);
      if m.Err? { return Err(m.error); }
      if m.value.None? { return Err(MarkerChanged(MarkerPath)); }
      ghost var t := run;
      var settled := SettleAdopted(m.value.value);
      WorkedOn(sha, since, t, run);
      SeenOn(retained, run, run, |t|, |since|);
      if settled.Fail? { return Err(settled.error); }
      return Ok(m.value.value);
    }

    /** The link succeeded: make it durable and read it back through its name. */
    method FinishPublication(temporary: Witness, token: Text) returns (r: Result<RetainedMarker, MarkerError>)
      requires Valid() && IsToken(token) && fs.canonical == Some(temporary.inode) && temporary.inode in fs.inodes
      requires fs.inodes[temporary.inode] == Inode(pid, EFFECTIVE_USER, MARKER_MODE, 1, Encode(sha, token), true)
      modifies this
      ensures Valid() && Worked(sha, old(run), run) && Counted()
      ensures r.Ok? ==> r.value.token == token && Settled(sha, fs, temporary.inode, token) && r.value.seen.inode == temporary.inode
      ensures r.Ok? ==> Confirmed(retained, run, |old(run)|) && Unobstructed(run, |old(run)|)
      ensures r.Err? ==> Explains(r.error) && r.error != Missing
    {
      DecodeInvertsEncode(sha, token);
      ghost var since := run;
      WatchedSelf(sha, pid, since);
      var linked := CanonicalWitness(temporary.inode, since);
      if linked.Err? { return Err(linked.error); }
      if linked.value.inode != temporary.inode { return Err(MarkerChanged(MarkerPath)); }
      ghost var t := run;
      var synced := SyncPublished(temporary.inode);
      WorkedOn(sha, since, t, run);
      if synced.Fail? { return Err(synced.error); }
      ghost var u := run;
      WatchedSelf(sha, pid, u);
      var marker := LoadCanonical(u);
      WorkedOn(sha, since, u, run);
      if marker.Err? { return Err(marker.error); }
      if marker.value.None? { return Err(MarkerChanged(MarkerPath)); }
      if marker.value.value.seen.inode != temporary.inode { return Err(MarkerChanged(MarkerPath)); }
      if marker.value.value.token != token { return Err(TokenMismatch); }
      ghost var v := run;
      var closing := ClosePublication(marker.value.value);
      WorkedOn(sha, since, v, run);
      SeenOn(retained, run, run, |v|, |since|);
      if closing.Fail? { return Err(closing.error); }
      return Ok(marker.value.value);
    }

    method SyncPublished(i: nat) returns (r: Outcome<MarkerError>)
      requires Valid() && fs.canonical == Some(i) && i in fs.inodes
      modifies this`fs, this`run, this`faults
      ensures Valid() && Worked(sha, old(run), run) && old(faults) <= faults
      ensures r.Pass? ==> fs.durable == Some(i) && i in fs.inodes && fs.inodes[i].synced
      ensures r.Fail? ==> r == Fail(Io) && faults > old(faults)
    {
      ghost var since := run;
      r := SyncFile(i);
      if r.Fail? { return; }
      ghost var t := run;
      r := SyncUsr();
      WorkedOn(sha, since, t, run);
    }

    method ClosePublication(m: RetainedMarker) returns (r: Outcome<MarkerError>)
      requires Valid() && Loaded(sha, fs, m)
      modifies this
      ensures Valid() && Worked(sha, old(run), run) && Counted()
      ensures r.Pass? ==> Settled(sha, fs, m.seen.inode, m.token)
      ensures r.Pass? ==> Confirmed(retained, run, |old(run)|) && Unobstructed(run, |old(run)|)
      ensures r.Fail? ==> Explains(r.error) && r.error != Missing
    {
      ghost var since := run;
      r := SyncPublished(m.seen.inode);
      if r.Fail? { return; }
      ghost var t := run;
      WatchedSelf(sha, pid, t);
      r := RejectTemporary(t);
      WorkedOn(sha, since, t, run);
      if r.Fail? { return; }
      ghost var u := run;
      WatchedSelf(sha, pid, u);
      r := ValidateUsr(u);
      WorkedOn(sha, since, u, run);
      assert u[|u| - 1] == run[|u| - 1];
      SeenOn(retained, run, run, |u|, |since|);
    }

    /** Links the sealed file under the canonical name, or adopts what got there first. */
    method PublishTemporary(temporary: Witness, token: Text) returns (r: Result<RetainedMarker, MarkerError>)
      requires Valid() && IsToken(token) && Anonymous(pid, fs, temporary.inode)
      requires fs.inodes[temporary.inode] == Inode(pid, EFFECTIVE_USER, MARKER_MODE, 0, Encode(sha, token), true)
      modifies this
      ensures Valid() && Worked(sha, old(run), run) && Counted()
      ensures r.Ok? ==> Settled(sha, fs, r.value.seen.inode, r.value.token)
      ensures r.Ok? ==> Confirmed(retained, run, |old(run)|) && Unobstructed(run, |old(run)|)
      ensures r.Err? ==> Explains(r.error) && r.error != Missing
    {
      ghost var since := run;
      WatchedSelf(sha, pid, since);
      var usr := ValidateUsr(since);
      if usr.Fail? { return Err(usr.error); }
      var present := LoadCanonical(since);
      if present.Err? { return Err(present.error); }
      if present.value.Some? {
        ghost var t := run;
        r := AdoptRacingCanonical();
        WorkedOn(sha, since, t, run);
        SeenOn(retained, run, run, |t|, |since|);
        return;
      }
      var unobstructed := RejectTemporary(since);
      if unobstructed.Fail? { return Err(unobstructed.error); }
      ghost var u := run;
      r := LinkOrAdopt(temporary, token);
      WorkedOn(sha, since, u, run);
      SeenOn(retained, run, run, |u|, |since|);
    }

    method LinkOrAdopt(temporary: Witness, token: Text) returns (r: Result<RetainedMarker, MarkerError>)
      requires Valid() && IsToken(token) && Anonymous(pid, fs, temporary.inode)
      requires fs.inodes[temporary.inode] == Inode(pid, EFFECTIVE_USER, MARKER_MODE, 0, Encode(sha, token), true)
      modifies this
      ensures Valid() && Worked(sha, old(run), run) && Counted()
      ensures r.Ok? ==> Settled(sha, fs, r.value.seen.inode, r.value.token)
      ensures r.Ok? ==> Confirmed(retained, run, |old(run)|) && Unobstructed(run, |old(run)|)
      ensures r.Err? ==> Explains(r.error) && r.error != Missing
    {
      DecodeInvertsEncode(sha, token);
      ghost var since := run;
      var link := LinkNoReplace(temporary.inode);
      if link.Refused? { return Err(Io); }
      ghost var t := run;
      if link.Exists? {
        r := AdoptRacingCanonical();
      } else {
        r := FinishPublication(temporary, token);
      }
      WorkedOn(sha, since, t, run);
      SeenOn(retained, run, run, |t|, |since|);
    }

    /** Creates the tree's marker or adopts the one that is there. Success leaves a marker that no
        later move, not even a power loss, can change; failure is never the protocol's own doing. */
    method AdoptOrCreateBeforeJournal() returns (r: Result<RetainedMarker, MarkerError>)
      requires Valid()
      modifies this
      ensures Valid() && Worked(sha, old(run), run)
      ensures r.Ok? ==> Settled(sha, fs, r.value.seen.inode, r.value.token)
      ensures r.Ok? ==> Confirmed(retained, run, |old(run)|) && Unobstructed(run, |old(run)|)
      ensures r.Err? ==> Explains(r.error) && r.error != Missing
    {
      ghost var since := run;
      WatchedSelf(sha, pid, since);
      var usr := ValidateUsr(since);
      if usr.Fail? { return Err(usr.error); }
      ghost var t := run;
      var synced := SyncUsr();
      WorkedOn(sha, since, t, run);
      if synced.Fail? { return Err(synced.error); }
      ghost var u := run;
      WatchedSelf(sha, pid, u);
      var existing := LoadCanonical(u);
      WorkedOn(sha, since, u, run);
      if existing.Err? { return Err(existing.error); }
      ghost var v := run;
      if existing.value.Some? {
        var settled := SettleAdopted(existing.value.value);
        r := if settled.Pass? then Ok(existing.value.value) else Err(settled.error);
      } else {
        r := CreateMarker();
      }
      WorkedOn(sha, since, v, run);
      SeenOn(retained, run, run, |v|, |since|);
    }

    method CreateMarker() returns (r: Result<RetainedMarker, MarkerError>)
      requires Valid()
      modifies this
      ensures Valid() && Worked(sha, old(run), run) && Counted()
      ensures r.Ok? ==> Settled(sha, fs, r.value.seen.inode, r.value.token)
      ensures r.Ok? ==> Confirmed(retained, run, |old(run)|) && Unobstructed(run, |old(run)|)
      ensures r.Err? ==> Explains(r.error) && r.error != Missing
    {
      ghost var since := run;
      WatchedSelf(sha, pid, since);
      var unobstructed := RejectTemporary(since);
      if unobstructed.Fail? { return Err(unobstructed.error); }
      ghost var t := run;
      var temporary := CreateAnonymousTemporary();
      WorkedOn(sha, since, t, run);
      if temporary.Err? { return Err(temporary.error); }
      var token := GenerateToken();
      if token.Err? { return Err(token.error); }
      ghost var u := run;
      var complete := WriteCompleteTemporary(temporary.value, token.value);
      WorkedOn(sha, since, u, run);
      if complete.Err? { return Err(complete.error); }
      ghost var v := run;
      r := PublishTemporary(complete.value, token.value);
      WorkedOn(sha, since, v, run);
      SeenOn(retained, run, run, |v|, |since|);
    }
  }
}
