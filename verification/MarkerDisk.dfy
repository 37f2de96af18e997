/** The directory a tree marker lives in, the moves its users make, and what every run keeps. Marker
    creators race: each move is one system call of one process, or a power loss. */
module MarkerDisk {
  import opened Basics
  import opened Ordering
  import opened MarkerCodec

  /** The user every marker must belong to. */
  const EFFECTIVE_USER: nat := 0
  const MARKER_MODE: nat := 0x124
  const TEMPORARY_MODE: nat := 0x180

  /** `synced`: the present contents and mode are on stable storage. */
  datatype Inode = Inode(owner: nat, uid: nat, mode: nat, links: nat, data: Text, synced: bool)

  /** Ownership, mode and default ACL of the retained directory. */
  datatype Usr = Usr(uid: nat, mode: bv12, defaultAcl: bool)

  datatype Fs = Fs(inodes: map<nat, Inode>, canonical: Option<nat>, durable: Option<nat>, temporary: bool, usr: Usr)

  /** A complete frame, read-only and on stable storage. */
  predicate Sealed(sha: Checksum, n: Inode) {
    n.uid == EFFECTIVE_USER && n.mode == MARKER_MODE && n.synced && Decode(sha, n.data).Ok?
  }

  /** What the readers ask of the file under the canonical name. */
  predicate Acceptable(sha: Checksum, n: Inode) {
    n.uid == EFFECTIVE_USER && n.mode == MARKER_MODE && n.links == 1 && Decode(sha, n.data).Ok?
  }

  // ---- moves of one process -----------------------------------------------------------

  predicate Replaces(s: Fs, t: Fs, i: nat, n: Inode) {
    t == s.(inodes := s.inodes[i := n])
  }

  predicate Anonymous(p: nat, s: Fs, i: nat) {
    i in s.inodes && s.inodes[i].owner == p && s.inodes[i].links == 0
  }

  /** `O_TMPFILE`, and writing, truncating or chmod-ing a file that has no name yet. */
  predicate Creates(p: nat, s: Fs, t: Fs) {
    exists i :: i in t.inodes && i !in s.inodes && Anonymous(p, t, i) && Replaces(s, t, i, t.inodes[i])
  }

  predicate Shapes(p: nat, s: Fs, t: Fs) {
    exists i :: i in s.inodes && Anonymous(p, s, i) && Anonymous(p, t, i) && Replaces(s, t, i, t.inodes[i])
  }

  /** The last descriptor of an unnamed file goes away. */
  predicate Drops(p: nat, s: Fs, t: Fs) {
    exists i :: i in s.inodes && Anonymous(p, s, i) && t == s.(inodes := s.inodes - {i})
  }

  predicate Syncs(p: nat, s: Fs, t: Fs) {
    exists i :: i in s.inodes && (Anonymous(p, s, i) || s.canonical == Some(i))
                && Replaces(s, t, i, s.inodes[i].(synced := true))
  }

  predicate SyncsDirectory(s: Fs, t: Fs) {
    t == s.(durable := s.canonical)
  }

  /** The no-replace link: only onto a free name, only of a sealed file of one's own. */
  predicate Publishes(sha: Checksum, p: nat, s: Fs, t: Fs) {
    && s.canonical.None?
    && exists i :: i in s.inodes && Anonymous(p, s, i) && Sealed(sha, s.inodes[i])
                   && t == s.(canonical := Some(i), inodes := s.inodes[i := s.inodes[i].(links := 1)])
  }

  /** Anything but the marker itself: the temporary name, the directory's metadata. */
  predicate Surrounds(s: Fs, t: Fs) {
    t == s.(temporary := t.temporary, usr := t.usr)
  }

  predicate Step(sha: Checksum, p: nat, s: Fs, t: Fs) {
    || Creates(p, s, t) || Shapes(p, s, t) || Drops(p, s, t) || Syncs(p, s, t)
    || SyncsDirectory(s, t) || Publishes(sha, p, s, t) || Surrounds(s, t)
  }

  /** Unnamed files are gone; an unsynced directory entry may be gone; unsynced contents are anything. */
  ghost predicate PowerLoss(s: Fs, t: Fs) {
    && (t.canonical == s.canonical || t.canonical == s.durable)
    && t.durable == t.canonical
    && match t.canonical
       case None => t.inodes == map[]
       case Some(i) =>
         && i in s.inodes && t.inodes.Keys == {i} && t.inodes[i].links == 1
         && (s.inodes[i].synced ==> t.inodes[i] == s.inodes[i].(links := 1))
  }

  // ---- runs ---------------------------------------------------------------------------

  datatype Actor = Process(id: nat) | Power

  datatype Move = Move(actor: Actor, fs: Fs)

  ghost predicate Moves(sha: Checksum, s: Fs, m: Move) {
    match m.actor
    case Process(p) => Step(sha, p, s, m.fs)
    case Power => PowerLoss(s, m.fs)
  }

  /** The canonical name denotes a file with one link, and the durable name is that name. */
  ghost predicate Consistent(s: Fs) {
    && (s.canonical.Some? ==> s.canonical.value in s.inodes && s.inodes[s.canonical.value].links > 0)
    && (s.durable.Some? ==> s.durable == s.canonical)
  }

  ghost predicate IsRun(sha: Checksum, run: seq<Move>) {
    && run != [] && Consistent(run[0].fs)
    && forall k: nat :: 0 < k < |run| ==> MovesAt(sha, run, k)
  }

  /** Entry k follows from the one before it. */
  ghost predicate MovesAt(sha: Checksum, run: seq<Move>, k: nat)
    requires 0 < k < |run|
  {
    Moves(sha, run[k - 1].fs, run[k])
  }

  // ---- what moves keep ----------------------------------------------------------------

  /** The same file, perhaps synced meanwhile. */
  predicate Same(a: Inode, b: Inode) {
    b == a || b == a.(synced := true)
  }

  /** A published name stays, with its file; a name that appears denotes a sealed file. */
  predicate Stable(sha: Checksum, s: Fs, t: Fs) {
    && (s.canonical.Some? ==>
          && t.canonical == s.canonical && s.canonical.value in s.inodes && s.canonical.value in t.inodes
          && Same(s.inodes[s.canonical.value], t.inodes[s.canonical.value]))
    && (s.canonical.None? && t.canonical.Some? ==>
          && t.canonical.value in t.inodes && t.inodes[t.canonical.value].links == 1
          && Sealed(sha, t.inodes[t.canonical.value]))
    && (s.durable.Some? ==> t.durable == s.durable)
  }

  /** The unnamed files of p are as they were. */
  predicate Private(p: nat, s: Fs, t: Fs) {
    forall i :: i in s.inodes && Anonymous(p, s, i) ==> i in t.inodes && t.inodes[i] == s.inodes[i]
  }

  lemma StepKeeps(sha: Checksum, p: nat, s: Fs, t: Fs)
    requires Consistent(s) && Step(sha, p, s, t)
    ensures Consistent(t) && Stable(sha, s, t)
  {
  }

  lemma StepOfAnother(sha: Checksum, p: nat, q: nat, s: Fs, t: Fs)
    requires Consistent(s) && Step(sha, q, s, t) && p != q
    ensures Private(p, s, t)
  {
  }

  lemma StableIsTransitive(sha: Checksum, s: Fs, t: Fs, u: Fs)
    requires Stable(sha, s, t) && Stable(sha, t, u)
    ensures Stable(sha, s, u)
  {
  }

  lemma PowerLossKeeps(s: Fs, t: Fs)
    requires Consistent(s) && PowerLoss(s, t)
    ensures Consistent(t)
  {
  }

  lemma {:induction false} RunIsConsistent(sha: Checksum, run: seq<Move>, k: nat)
    requires IsRun(sha, run) && k < |run|
    ensures Consistent(run[k].fs)
  {
    if k > 0 {
      RunIsConsistent(sha, run, k - 1);
      var s, m := run[k - 1].fs, run[k];
      assert MovesAt(sha, run, k);
      match m.actor
      case Process(p) => StepKeeps(sha, p, s, m.fs);
      case Power => PowerLossKeeps(s, m.fs);
    }
  }

  lemma RunExtends(sha: Checksum, run: seq<Move>, m: Move)
    requires IsRun(sha, run) && Moves(sha, run[|run| - 1].fs, m)
    ensures IsRun(sha, run + [m])
  {
    var r := run + [m];
    forall k: nat | 0 < k < |r|
      ensures MovesAt(sha, r, k)
    {
      if k < |run| {
        assert MovesAt(sha, run, k) && r[k] == run[k] && r[k - 1] == run[k - 1];
      }
    }
  }

  // ---- theorems over whole runs -------------------------------------------------------

  ghost predicate NoPowerLoss(run: seq<Move>, j: nat, k: nat) {
    forall i :: j < i <= k && i < |run| ==> run[i].actor.Process?
  }

  /** Between power losses at most one file is ever published, and its contents never change. */
  lemma {:induction false} PublishedOnce(sha: Checksum, run: seq<Move>, j: nat, k: nat)
    requires IsRun(sha, run) && j <= k < |run| && NoPowerLoss(run, j, k)
    ensures Stable(sha, run[j].fs, run[k].fs)
  {
    RunIsConsistent(sha, run, j);
    if j < k {
      PublishedOnce(sha, run, j, k - 1);
      RunIsConsistent(sha, run, k - 1);
      assert MovesAt(sha, run, k);
      StepKeeps(sha, run[k].actor.id, run[k - 1].fs, run[k].fs);
      StableIsTransitive(sha, run[j].fs, run[k - 1].fs, run[k].fs);
    }
  }

  ghost predicate NameIsSealed(sha: Checksum, s: Fs) {
    s.canonical.Some? ==> s.canonical.value in s.inodes && Sealed(sha, s.inodes[s.canonical.value])
  }

  /** The visible name always denotes a complete sealed frame, across power losses too. */
  lemma {:induction false} NameAlwaysSealed(sha: Checksum, run: seq<Move>, k: nat)
    requires IsRun(sha, run) && k < |run| && NameIsSealed(sha, run[0].fs)
    ensures NameIsSealed(sha, run[k].fs)
  {
    if k > 0 {
      NameAlwaysSealed(sha, run, k - 1);
      RunIsConsistent(sha, run, k - 1);
      assert MovesAt(sha, run, k);
      if run[k].actor.Process? {
        StepKeeps(sha, run[k].actor.id, run[k - 1].fs, run[k].fs);
      }
    }
  }

  /** The marker `i` holds `token`, and a power loss cannot take it away. */
  ghost predicate Settled(sha: Checksum, s: Fs, i: nat, token: Text) {
    && s.canonical == Some(i) && s.durable == Some(i)
    && i in s.inodes && s.inodes[i].synced && Acceptable(sha, s.inodes[i])
    && Decode(sha, s.inodes[i].data) == Ok(token)
  }

  lemma {:induction false} SettledForever(sha: Checksum, run: seq<Move>, j: nat, k: nat, i: nat, token: Text)
    requires IsRun(sha, run) && j <= k < |run| && Settled(sha, run[j].fs, i, token)
    ensures Settled(sha, run[k].fs, i, token)
  {
    if j < k {
      SettledForever(sha, run, j, k - 1, i, token);
      RunIsConsistent(sha, run, k - 1);
      assert MovesAt(sha, run, k);
      if run[k].actor.Process? {
        StepKeeps(sha, run[k].actor.id, run[k - 1].fs, run[k].fs);
      }
    }
  }

  /** Agreement: whatever is settled at any two moments of a run is one file with one token. */
  lemma SettledMarkersAgree(sha: Checksum, run: seq<Move>, j: nat, k: nat, a: nat, b: nat, x: Text, y: Text)
    requires IsRun(sha, run) && j < |run| && k < |run|
    requires Settled(sha, run[j].fs, a, x) && Settled(sha, run[k].fs, b, y)
    ensures a == b && x == y
  {
    if j <= k {
      SettledForever(sha, run, j, k, a, x);
    } else {
      SettledForever(sha, run, k, j, b, y);
    }
  }
}
