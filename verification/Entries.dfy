// Hashed images, and the lists of them that the threads of a peer exchange.
module Entries {
  import opened Codec

  type Path = seq<byte>

  const SLASH: byte := 47

  /** An image in the hasher's list. */
  datatype Entry = Entry(hash: ExifHash, path: Path)

  function HashSet(es: seq<Entry>): set<ExifHash> {
    if es == [] then {} else HashSet(es[..|es| - 1]) + {es[|es| - 1].hash}
  }

  lemma {:induction false} InHashSet(es: seq<Entry>, h: ExifHash)
    ensures h in HashSet(es) <==> exists i :: 0 <= i < |es| && es[i].hash == h
  {
    if es != [] {
      InHashSet(es[..|es| - 1], h);
    }
  }

  lemma HashSetSnoc(es: seq<Entry>, e: Entry)
    ensures HashSet(es + [e]) == HashSet(es) + {e.hash}
  {
    assert (es + [e])[..|es|] == es;
  }

  lemma {:induction false} HashSetMonotone(es: seq<Entry>, fs: seq<Entry>)
    requires es <= fs
    ensures HashSet(es) <= HashSet(fs)
  {
    if es != fs {
      HashSetMonotone(es, fs[..|fs| - 1]);
    }
  }

  function HashesOf(es: seq<Entry>): (hs: seq<ExifHash>)
    ensures |hs| == |es|
  {
    seq(|es|, i requires 0 <= i < |es| => es[i].hash)
  }

  ghost predicate Distinct(es: seq<Entry>) {
    forall i, j :: 0 <= i < j < |es| ==> es[i].hash != es[j].hash
  }

  /** The entries whose hash is not in `have`, in order. */
  function NotIn(es: seq<Entry>, have: set<ExifHash>): (r: seq<Entry>)
    ensures |r| <= |es|
  {
    if es == [] then []
    else (if es[0].hash in have then [] else [es[0]]) + NotIn(es[1..], have)
  }

  lemma {:induction false} InNotIn(es: seq<Entry>, have: set<ExifHash>, e: Entry)
    ensures e in NotIn(es, have) <==> e in es && e.hash !in have
  {
    if es != [] {
      InNotIn(es[1..], have, e);
    }
  }

  lemma {:induction false} NotInAppend(a: seq<Entry>, b: seq<Entry>, have: set<ExifHash>)
    ensures NotIn(a + b, have) == NotIn(a, have) + NotIn(b, have)
  {
    if a == [] {
      assert a + b == b;
    } else {
      assert (a + b)[1..] == a[1..] + b;
      NotInAppend(a[1..], b, have);
    }
  }

  lemma {:induction false} NotInTwice(es: seq<Entry>, some: set<ExifHash>, have: set<ExifHash>)
    requires some <= have
    ensures NotIn(NotIn(es, some), have) == NotIn(es, have)
  {
    if es != [] {
      var rest := NotIn(es[1..], some);
      NotInTwice(es[1..], some, have);
      if es[0].hash in some {
        assert NotIn(es, some) == rest;
      } else {
        assert NotIn(es, some) == [es[0]] + rest;
        assert ([es[0]] + rest)[1..] == rest;
      }
    }
  }

  lemma {:induction false} NotInDistinct(es: seq<Entry>, have: set<ExifHash>)
    requires Distinct(es)
    ensures Distinct(NotIn(es, have))
  {
    if es != [] {
      NotInDistinct(es[1..], have);
      forall i | 0 <= i < |NotIn(es[1..], have)|
        ensures NotIn(es[1..], have)[i] in es[1..]
      {
        InNotIn(es[1..], have, NotIn(es[1..], have)[i]);
      }
    }
  }

  // ----- the same choice made on offered hashes -----

  function Flags(hs: seq<ExifHash>, have: set<ExifHash>): (found: seq<bool>)
    ensures |found| == |hs|
  {
    seq(|hs|, i requires 0 <= i < |hs| => hs[i] in have)
  }

  function MissingHashes(hs: seq<ExifHash>, have: set<ExifHash>): (r: seq<ExifHash>) {
    if hs == [] then [] else (if hs[0] in have then [] else [hs[0]]) + MissingHashes(hs[1..], have)
  }

  function Select(es: seq<Entry>, found: seq<bool>): (r: seq<Entry>)
    requires |found| == |es|
  {
    if es == [] then [] else (if found[0] then [] else [es[0]]) + Select(es[1..], found[1..])
  }

  lemma {:induction false} InSelect(es: seq<Entry>, found: seq<bool>, e: Entry)
    requires |found| == |es| && e in Select(es, found)
    ensures e in es
  {
    if es != [] && e in Select(es[1..], found[1..]) {
      InSelect(es[1..], found[1..], e);
    }
  }

  lemma {:induction false} SelectSnoc(es: seq<Entry>, found: seq<bool>, i: nat)
    requires i < |es| == |found|
    ensures Select(es[..i + 1], found[..i + 1]) == Select(es[..i], found[..i]) + (if found[i] then [] else [es[i]])
    decreases |es|
  {
    if i > 0 {
      assert es[..i + 1][1..] == es[1..][..i] && es[..i][1..] == es[1..][..i - 1];
      assert found[..i + 1][1..] == found[1..][..i] && found[..i][1..] == found[1..][..i - 1];
      SelectSnoc(es[1..], found[1..], i - 1);
    }
  }

  /** How many of the first `n` are true. */
  function CountTo(bs: seq<bool>, n: nat): (count: nat)
    requires n <= |bs|
    ensures count <= n
  {
    if n == 0 then 0 else CountTo(bs, n - 1) + if bs[n - 1] then 1 else 0
  }

  lemma {:induction false} SelectCount(es: seq<Entry>, found: seq<bool>, n: nat)
    requires n <= |es| == |found|
    ensures |Select(es[..n], found[..n])| == n - CountTo(found, n)
  {
    if n > 0 {
      SelectCount(es, found, n - 1);
      SelectSnoc(es, found, n - 1);
    }
  }

  /** With the true flags the uploader selects just the entries whose hashes the downloader kept as missing. */
  lemma {:induction false} SelectIsNotIn(es: seq<Entry>, have: set<ExifHash>)
    ensures Select(es, Flags(HashesOf(es), have)) == NotIn(es, have)
    ensures MissingHashes(HashesOf(es), have) == HashesOf(NotIn(es, have))
  {
    if es != [] {
      assert HashesOf(es)[1..] == HashesOf(es[1..]);
      assert Flags(HashesOf(es), have)[1..] == Flags(HashesOf(es[1..]), have);
      SelectIsNotIn(es[1..], have);
      var first := if es[0].hash in have then [] else [es[0]];
      assert HashesOf(first + NotIn(es[1..], have)) == HashesOf(first) + HashesOf(NotIn(es[1..], have));
    }
  }

  // ----- file names -----

  /** What follows the last slash. */
  function Basename(path: Path): (name: Path)
    ensures |name| <= |path|
  {
    if path == [] || path[|path| - 1] == SLASH then []
    else Basename(path[..|path| - 1]) + [path[|path| - 1]]
  }

  /** The name is the longest end of the path without a slash. */
  lemma {:induction false} BasenameIsEnd(path: Path)
    ensures var name := Basename(path);
            && SLASH !in name && name == path[|path| - |name|..]
            && (|name| < |path| ==> path[|path| - |name| - 1] == SLASH)
  {
    if path != [] && path[|path| - 1] != SLASH {
      BasenameIsEnd(path[..|path| - 1]);
    }
  }

  /** The name as it is sent: its length is cut to a byte. */
  function SentName(path: Path): (name: Path)
    ensures |name| <= 255
  {
    var name := Basename(path);
    name[..|name| % 256]
  }
}
