/** The capture store `save_file` (src/main.rs:92-102): the captured bytes
 *  of one direction are written to `dir/name`, where `name` is the
 *  unpadded hexadecimal rendering of their SHA-1 digest. The filesystem is
 *  a map from path to contents; a write overwrites.
 */
module Store {
  import opened Io
  import opened Hex

  /** The direction of a pump, which names the capture directory. */
  datatype Direction = Client | Server

  function Tag(d: Direction): string {
    match d
    case Client => "client"
    case Server => "server"
  }

  /** A SHA-1 digest is 20 bytes. */
  const DigestSize: nat := 20

  type Digest = s: seq<byte> | |s| == DigestSize
    witness [0, 0, 0, 0, 0, 0, 0, 0, 0, 0, 0, 0, 0, 0, 0, 0, 0, 0, 0, 0]

  /** The files on disk: path to contents. */
  type FileStore = map<string, seq<byte>>

  /** `format!("{dir}/{hash}")`: the directory, a slash, then the name. */
  function PathFor(dir: string, digest: seq<byte>): (r: string)
    ensures |r| == |dir| + 1 + |HexName(digest)|
    ensures r[..|dir| + 1] == dir + "/"
    ensures r[|dir| + 1..] == HexName(digest)
  {
    dir + "/" + HexName(digest)
  }

  /** What `save_file` returns, and the files afterwards. */
  datatype Saved = Saved(result: Outcome, files: FileStore)

  /** `save_file(data, dir)`. `sha1` is the digest function and `disk` what
   *  the filesystem answers to the write; a failed write leaves the files
   *  as they were. */
  function SaveFile(files: FileStore, data: seq<byte>, dir: string,
                    sha1: seq<byte> -> Digest, disk: Outcome): (s: Saved)
    ensures s.result == disk
    ensures disk.Fail? ==> s.files == files
    ensures disk.Pass? ==>
      var path := PathFor(dir, sha1(data));
      s.files.Keys == files.Keys + {path} && s.files[path] == data &&
      forall p :: p in files && p != path ==> s.files[p] == files[p]
  {
    if disk.Fail? then Saved(disk, files)
    else Saved(Pass, files[PathFor(dir, sha1(data)) := data])
  }

  /** A capture file's name: between 20 and 40 hexadecimal digits after the
   *  directory and the slash. */
  lemma PathShape(dir: string, digest: Digest)
    ensures PathFor(dir, digest)[..|dir| + 1] == dir + "/"
    ensures |dir| + 1 + 20 <= |PathFor(dir, digest)| <= |dir| + 1 + 40
    ensures forall i :: |dir| + 1 <= i < |PathFor(dir, digest)| ==> IsLowerHexDigit(PathFor(dir, digest)[i])
  {
    HexNameLength(digest);
    HexNameAlphabet(digest);
    var path := PathFor(dir, digest);
    forall i | |dir| + 1 <= i < |path| ensures IsLowerHexDigit(path[i]) {
      assert path[i] == HexName(digest)[i - |dir| - 1];
    }
  }

  /** Saving the same data twice into the same directory leaves the store
   *  as the first save left it: the store is content-addressed. */
  lemma SaveIdempotent(files: FileStore, data: seq<byte>, dir: string, sha1: seq<byte> -> Digest)
    ensures var once := SaveFile(files, data, dir, sha1, Pass).files;
      SaveFile(once, data, dir, sha1, Pass).files == once
  {
    var path := PathFor(dir, sha1(data));
    var once := files[path := data];
    assert once[path := data] == once;
  }

  /** The two capture directories never share a path, whatever the
   *  digests. */
  lemma DirectoriesDisjoint(x: seq<byte>, y: seq<byte>)
    ensures PathFor(Tag(Client), x) != PathFor(Tag(Server), y)
  {
    assert PathFor(Tag(Client), x)[0] == 'c';
    assert PathFor(Tag(Server), y)[0] == 's';
  }

  /** A client save and a server save touch different files, so the order in
   *  which they run does not change the final store. */
  lemma SavesCommute(files: FileStore, a: seq<byte>, b: seq<byte>, sha1: seq<byte> -> Digest,
                     diskA: Outcome, diskB: Outcome)
    ensures
      var ab := SaveFile(SaveFile(files, a, Tag(Client), sha1, diskA).files, b, Tag(Server), sha1, diskB);
      var ba := SaveFile(SaveFile(files, b, Tag(Server), sha1, diskB).files, a, Tag(Client), sha1, diskA);
      ab.files == ba.files
  {
    DirectoriesDisjoint(sha1(a), sha1(b));
  }

  /** Because names are not zero-padded, two different digests can name the
   *  same file, and the later save then replaces the earlier one's bytes. */
  lemma CollidingNamesOverwrite(files: FileStore, a: seq<byte>, b: seq<byte>, dir: string,
                                sha1: seq<byte> -> Digest)
    requires HexName(sha1(a)) == HexName(sha1(b))
    ensures var after := SaveFile(SaveFile(files, a, dir, sha1, Pass).files, b, dir, sha1, Pass).files;
      PathFor(dir, sha1(a)) in after && after[PathFor(dir, sha1(a))] == b
  {
  }
}
