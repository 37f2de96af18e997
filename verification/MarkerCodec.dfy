/** The frame of a tree marker: magic, version, payload length, checksum, token. */
module MarkerCodec {
  import opened Basics
  import opened Ordering

  /** "CASTTID" and a zero byte. */
  const MAGIC: Text := [67, 65, 83, 84, 84, 73, 68, 0]
  const VERSION: nat := 1
  const TOKEN_LENGTH: nat := 32
  const CHECKSUM_LENGTH: nat := 32
  const MAGIC_END: nat := 8
  const VERSION_END: nat := 10
  const LENGTH_END: nat := 14
  const CHECKSUM_END: nat := 46
  const FRAME_LENGTH: nat := 78

  /** SHA-256, known only by the length of its digests. */
  type Checksum = sha: Text -> Text | DigestLength(sha) witness NO_CHECKSUM

  const NO_CHECKSUM: Text -> Text := (_: Text) => seq(CHECKSUM_LENGTH, _ => 0)

  ghost predicate DigestLength(sha: Text -> Text) {
    forall s :: |sha(s)| == CHECKSUM_LENGTH
  }

  datatype CodecError =
    | InvalidLength
    | InvalidMagic
    | UnsupportedVersion
    | InvalidPayloadLength
    | ChecksumMismatch
    | InvalidToken
    | NonCanonical

  /** A nonzero 128-bit value in lower-case hexadecimal. */
  predicate IsToken(t: Text) {
    && |t| == TOKEN_LENGTH
    && (forall i :: 0 <= i < |t| ==> 48 <= t[i] <= 57 || 97 <= t[i] <= 102)
    && (exists i :: 0 <= i < |t| && t[i] != 48)
  }

  function BigEndian(n: nat, k: nat): (r: Text)
    ensures |r| == k
  {
    if k == 0 then [] else BigEndian(n / 256, k - 1) + [(n % 256) as byte]
  }

  function FromBigEndian(s: Text): nat {
    if s == [] then 0 else 256 * FromBigEndian(s[..|s| - 1]) + s[|s| - 1] as nat
  }

  function Header(): (r: Text)
    ensures |r| == LENGTH_END
  {
    MAGIC + BigEndian(VERSION, VERSION_END - MAGIC_END) + BigEndian(TOKEN_LENGTH, LENGTH_END - VERSION_END)
  }

  function Encode(sha: Checksum, token: Text): Text {
    Header() + sha(Header() + token) + token
  }

  function Decode(sha: Checksum, frame: Text): Result<Text, CodecError> {
    if |frame| != FRAME_LENGTH then Err(InvalidLength)
    else if frame[..MAGIC_END] != MAGIC then Err(InvalidMagic)
    else if FromBigEndian(frame[MAGIC_END..VERSION_END]) != VERSION then Err(UnsupportedVersion)
    else if FromBigEndian(frame[VERSION_END..LENGTH_END]) != TOKEN_LENGTH then Err(InvalidPayloadLength)
    else if frame[LENGTH_END..CHECKSUM_END] != sha(frame[..LENGTH_END] + frame[CHECKSUM_END..]) then Err(ChecksumMismatch)
    else if !IsToken(frame[CHECKSUM_END..]) then Err(InvalidToken)
    else if Encode(sha, frame[CHECKSUM_END..]) != frame then Err(NonCanonical)
    else Ok(frame[CHECKSUM_END..])
  }

  lemma {:induction false} BigEndianRoundTrip(s: Text)
    ensures BigEndian(FromBigEndian(s), |s|) == s
  {
    if s != [] {
      var init := s[..|s| - 1];
      BigEndianRoundTrip(init);
      SplitLast(s);
      var n := FromBigEndian(s);
      assert n / 256 == FromBigEndian(init) && n % 256 == s[|s| - 1] as nat;
    }
  }

  lemma HeaderFields()
    ensures FromBigEndian(BigEndian(VERSION, 2)) == VERSION
    ensures FromBigEndian(BigEndian(TOKEN_LENGTH, 4)) == TOKEN_LENGTH
  {
    assert BigEndian(VERSION, 2) == [0, 1];
    assert [0 as byte, 1][..1] == [0];
    assert BigEndian(TOKEN_LENGTH, 4) == [0, 0, 0, 32];
    assert [0 as byte, 0, 0, 32][..3] == [0, 0, 0];
    assert [0 as byte, 0, 0][..2] == [0, 0];
    assert [0 as byte, 0][..1] == [0];
  }

  lemma FrameParts(sha: Checksum, token: Text)
    requires |token| == TOKEN_LENGTH
    ensures var f := Encode(sha, token);
            && |f| == FRAME_LENGTH && f[..LENGTH_END] == Header() && f[CHECKSUM_END..] == token
            && f[LENGTH_END..CHECKSUM_END] == sha(Header() + token)
            && f[..MAGIC_END] == MAGIC && f[MAGIC_END..VERSION_END] == BigEndian(VERSION, 2)
            && f[VERSION_END..LENGTH_END] == BigEndian(TOKEN_LENGTH, 4)
  {
    var f, h := Encode(sha, token), Header();
    assert f[..LENGTH_END] == h;
    assert f[..MAGIC_END] == h[..MAGIC_END] == MAGIC;
    assert f[MAGIC_END..VERSION_END] == h[MAGIC_END..VERSION_END] == BigEndian(VERSION, 2);
    assert f[VERSION_END..LENGTH_END] == h[VERSION_END..] == BigEndian(TOKEN_LENGTH, 4);
  }

  lemma DecodeInvertsEncode(sha: Checksum, token: Text)
    requires IsToken(token)
    ensures |Encode(sha, token)| == FRAME_LENGTH && Decode(sha, Encode(sha, token)) == Ok(token)
  {
    FrameParts(sha, token);
    HeaderFields();
  }

  lemma FieldIsPinned(s: Text, n: nat)
    requires FromBigEndian(s) == n
    ensures s == BigEndian(n, |s|)
  {
    BigEndianRoundTrip(s);
  }

  /** The header checks leave one possible header. */
  lemma AcceptedHeader(frame: Text)
    requires |frame| == FRAME_LENGTH && frame[..MAGIC_END] == MAGIC
    requires FromBigEndian(frame[MAGIC_END..VERSION_END]) == VERSION
    requires FromBigEndian(frame[VERSION_END..LENGTH_END]) == TOKEN_LENGTH
    ensures frame[..LENGTH_END] == Header()
  {
    FieldIsPinned(frame[MAGIC_END..VERSION_END], VERSION);
    FieldIsPinned(frame[VERSION_END..LENGTH_END], TOKEN_LENGTH);
    assert frame[..LENGTH_END] == frame[..MAGIC_END] + frame[MAGIC_END..VERSION_END] + frame[VERSION_END..LENGTH_END];
  }

  /** A decoded frame is the one encoding of its token, and the last canonicity check never fires:
      the checks before it already pin every byte. */
  lemma DecodedIsCanonical(sha: Checksum, frame: Text)
    ensures Decode(sha, frame) != Err(NonCanonical)
    ensures Decode(sha, frame).Ok? ==> IsToken(Decode(sha, frame).value) && frame == Encode(sha, Decode(sha, frame).value)
  {
    if |frame| == FRAME_LENGTH && frame[..MAGIC_END] == MAGIC
       && FromBigEndian(frame[MAGIC_END..VERSION_END]) == VERSION
       && FromBigEndian(frame[VERSION_END..LENGTH_END]) == TOKEN_LENGTH
    {
      AcceptedHeader(frame);
      assert frame == frame[..LENGTH_END] + frame[LENGTH_END..CHECKSUM_END] + frame[CHECKSUM_END..];
    }
  }
}
