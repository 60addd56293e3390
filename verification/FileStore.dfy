// Storing a downloaded image without touching a file that is already there.
module FileStore {
  import opened Codec
  import opened Entries
  import opened Framing

  type Files = map<Path, seq<byte>>

  const DASH: byte := 45

  function HexDigit(d: nat): byte
    requires d < 16
  {
    if d < 10 then 48 + d else 87 + d
  }

  function Hex(s: seq<byte>): (t: seq<byte>)
    ensures |t| == 2 * |s|
  {
    if s == [] then [] else [HexDigit(s[0] / 16), HexDigit(s[0] % 16)] + Hex(s[1..])
  }

  function Contents(files: Files, path: Path): seq<byte> {
    if path in files then files[path] else []
  }

  /** Where the image goes: the first choice, and the one that has the hash added to it. */
  function PlainPath(dir: Path, name: seq<byte>): Path {
    dir + [SLASH] + name
  }

  function HashedPath(dir: Path, name: seq<byte>, hash: ExifHash): Path {
    PlainPath(dir, name) + [DASH] + Hex(ToDigest(hash))
  }

  /** Among the bytes of a lower-case hexadecimal numeral, those that stand for `d`. */
  predicate Spells(c: byte, d: nat) {
    if d < 10 then c == 48 + d else d < 16 && c == 97 + (d - 10)
  }

  lemma {:induction false} HexSpells(s: seq<byte>, i: nat)
    requires i < |s|
    ensures Spells(Hex(s)[2 * i], s[i] / 16) && Spells(Hex(s)[2 * i + 1], s[i] % 16)
  {
    if i > 0 {
      HexSpells(s[1..], i - 1);
    }
  }

  /** The first choice is the name in the directory. The second one has behind it a dash and forty lower-case
      hexadecimal digits, two for each byte of the digest. */
  lemma PathsSpelt(dir: Path, name: seq<byte>, hash: ExifHash)
    ensures PlainPath(dir, name) == dir + [47] + name
    ensures var path, n := HashedPath(dir, name, hash), |dir| + 1 + |name|;
            && |path| == n + 41 && path[..n] == dir + [47] + name && path[n] == 45
            && forall i :: 0 <= i < 20 ==>
                 && Spells(path[n + 1 + 2 * i], ToDigest(hash)[i] / 16)
                 && Spells(path[n + 2 + 2 * i], ToDigest(hash)[i] % 16)
  {
    var path, n := HashedPath(dir, name, hash), |dir| + 1 + |name|;
    var digest := ToDigest(hash);
    assert path[n + 1..] == Hex(digest);
    forall i | 0 <= i < 20
      ensures Spells(path[n + 1 + 2 * i], digest[i] / 16) && Spells(path[n + 2 + 2 * i], digest[i] % 16)
    {
      HexSpells(digest, i);
      assert path[n + 1 + 2 * i] == Hex(digest)[2 * i] && path[n + 2 + 2 * i] == Hex(digest)[2 * i + 1];
    }
  }

  lemma {:induction false} HexApart(s: seq<byte>, t: seq<byte>)
    requires |s| == |t| && Hex(s) == Hex(t)
    ensures s == t
  {
    forall i | 0 <= i < |s|
      ensures s[i] == t[i]
    {
      HexSpells(s, i);
      HexSpells(t, i);
    }
  }

  /** Second choices are the same only for one name and one hash. */
  lemma HashedPathsApart(dir: Path, name: seq<byte>, other: seq<byte>, hash: ExifHash, otherHash: ExifHash)
    requires HashedPath(dir, name, hash) == HashedPath(dir, other, otherHash)
    ensures name == other && hash == otherHash
  {
    var path := HashedPath(dir, name, hash);
    var n, m := |dir| + 1 + |name|, |dir| + 1 + |other|;
    assert path[n + 1..] == Hex(ToDigest(hash)) && path[m + 1..] == Hex(ToDigest(otherHash));
    assert n == m;
    assert path[|dir| + 1..n] == name && path[|dir| + 1..m] == other;
    HexApart(ToDigest(hash), ToDigest(otherHash));
    DigestsApart(hash, otherHash);
  }

  /** The name that makes a first choice of the second choice for another one. */
  function Lookalike(name: seq<byte>, hash: ExifHash): seq<byte> {
    name + [DASH] + Hex(ToDigest(hash))
  }

  lemma PlainIsHashed(dir: Path, name: seq<byte>, other: seq<byte>, hash: ExifHash)
    ensures PlainPath(dir, other) == HashedPath(dir, name, hash) <==> other == Lookalike(name, hash)
  {
    var hashed := HashedPath(dir, name, hash);
    assert hashed == dir + [SLASH] + Lookalike(name, hash);
    assert hashed[|dir| + 1..] == Lookalike(name, hash) && PlainPath(dir, other)[|dir| + 1..] == other;
  }

  datatype Opened = Opened(ok: bool, files: Files)

  /** Opens for appending, which makes the file if it can, and succeeds if the file is empty.
      `locked` are the paths that cannot be opened for writing. */
  function ReopenEnd(files: Files, locked: set<Path>, path: Path): Opened {
    if path in locked then Opened(false, files)
    else
      var made := if path in files then files else files[path := []];
      Opened(made[path] == [], made)
  }

  datatype Stored = Stored(files: Files, path: Option<Path>)

  /** Stores an image at one of its two paths, or discards it. */
  function Save(files: Files, locked: set<Path>, dir: Path, hash: ExifHash, r: Record): Stored {
    var plain := ReopenEnd(files, locked, PlainPath(dir, r.name));
    if plain.ok then Append(plain.files, PlainPath(dir, r.name), r.body)
    else
      var hashed := ReopenEnd(plain.files, locked, HashedPath(dir, r.name, hash));
      if hashed.ok then Append(hashed.files, HashedPath(dir, r.name, hash), r.body)
      else Stored(hashed.files, None)
  }

  function Append(files: Files, path: Path, body: seq<byte>): Stored
    requires path in files
  {
    Stored(files[path := files[path] + body], Some(path))
  }

  /** A path at which an image can be stored. */
  predicate Free(files: Files, locked: set<Path>, path: Path) {
    path !in locked && Contents(files, path) == []
  }

  /** An image lands whole at the first free path of the two; nothing else changes; it is discarded
      exactly when neither path is free, and then nothing changes at all. */
  lemma SaveOutcome(files: Files, locked: set<Path>, dir: Path, hash: ExifHash, r: Record)
    ensures var plain, hashed := PlainPath(dir, r.name), HashedPath(dir, r.name, hash);
            var s := Save(files, locked, dir, hash, r);
            && s.path == (if Free(files, locked, plain) then Some(plain)
                          else if Free(files, locked, hashed) then Some(hashed) else None)
            && s.files == (if s.path.Some? then files[s.path.value := r.body] else files)
            && (s.path.Some? ==> Contents(files, s.path.value) == [])
  {
    var plain, hashed := PlainPath(dir, r.name), HashedPath(dir, r.name, hash);
    AppendToEmpty(files, locked, plain, r.body);
    AppendToEmpty(files, locked, hashed, r.body);
  }

  lemma AppendToEmpty(files: Files, locked: set<Path>, path: Path, body: seq<byte>)
    ensures var o := ReopenEnd(files, locked, path);
            && o.ok == Free(files, locked, path)
            && (o.ok ==> Append(o.files, path, body).files == files[path := body])
            && (!o.ok ==> o.files == files)
  {
    assert [] + body == body;
    assert files[path := []][path := body] == files[path := body];
  }
}
