/** The files of the artifact store: for each artifact a record log and its companions. */
module Disks {
  import opened Wrappers
  import opened ByteStrings

  datatype Kind = Records | Stdout | Stderr | Json | Combined | LogsJson | Marker

  datatype Path = Path(id: string, kind: Kind)

  datatype File = File(content: Bytes, mod: int)

  type Disk = map<Path, File>

  function Size(d: Disk, p: Path): nat { if p in d then |d[p].content| else 0 }

  function Content(d: Disk, id: string, kind: Kind): Option<Bytes> {
    if Path(id, kind) in d then Some(d[Path(id, kind)].content) else None
  }

  function CompanionBytes(d: Disk, id: string): nat {
    Size(d, Path(id, Stdout)) + Size(d, Path(id, Stderr)) + Size(d, Path(id, Json)) +
    Size(d, Path(id, Combined)) + Size(d, Path(id, LogsJson)) + Size(d, Path(id, Marker))
  }

  /** All bytes an artifact has on disk. */
  function BytesOf(d: Disk, id: string): nat {
    Size(d, Path(id, Records)) + CompanionBytes(d, id)
  }

  lemma PutChangesSize(d: Disk, p: Path, f: File, id: string)
    ensures BytesOf(d[p := f], id) == BytesOf(d, id) + if id == p.id then |f.content| - Size(d, p) else 0
  {
    var e := d[p := f];
    assert forall k :: Path(id, k) != p ==> Size(e, Path(id, k)) == Size(d, Path(id, k));
    match p
    case Path(_, Records) =>
    case Path(_, Stdout) =>
    case Path(_, Stderr) =>
    case Path(_, Json) =>
    case Path(_, Combined) =>
    case Path(_, LogsJson) =>
    case Path(_, Marker) =>
  }

  /** A restarted artifact that had no bytes has none. */
  lemma StillNoBytes(d: Disk, e: Disk, id: string)
    requires BytesOf(d, id) == 0 && Content(e, id, Marker).None?
    requires forall k :: k != Records && k != Marker ==> Content(e, id, k) == Content(d, id, k)
    ensures CompanionBytes(e, id) == 0
  {
    assert Content(e, id, Stdout) == Content(d, id, Stdout) && Content(e, id, Stderr) == Content(d, id, Stderr);
    assert Content(e, id, Json) == Content(d, id, Json) && Content(e, id, Combined) == Content(d, id, Combined);
    assert Content(e, id, LogsJson) == Content(d, id, LogsJson);
  }

  /** A file after `data` was written at offset `at`. */
  function WriteAt(content: Bytes, at: nat, data: Bytes): Bytes
    requires at <= |content|
  {
    content[..at] + data + if at + |data| < |content| then content[at + |data|..] else []
  }

  lemma WriteAtEnd(content: Bytes, data: Bytes)
    ensures WriteAt(content, |content|, data) == content + data
  {
  }

  function Without(d: Disk, ids: set<string>): Disk {
    map p | p in d && p.id !in ids :: d[p]
  }

  function LaterOf(a: Option<int>, d: Disk, p: Path): Option<int> {
    if p in d && (a.None? || d[p].mod > a.value) then Some(d[p].mod) else a
  }

  /** The newest modification time of an artifact's files; None when it has no file. */
  function NewestMod(d: Disk, id: string): Option<int> {
    var m := LaterOf(None, d, Path(id, Records));
    var m := LaterOf(LaterOf(LaterOf(m, d, Path(id, Stdout)), d, Path(id, Stderr)), d, Path(id, Json));
    LaterOf(LaterOf(LaterOf(m, d, Path(id, Combined)), d, Path(id, LogsJson)), d, Path(id, Marker))
  }

  /** An artifact without any file. */
  ghost predicate NoFiles(d: Disk, id: string) { forall k :: Path(id, k) !in d }

  /** Some file of the artifact was modified at `m`, and none later. */
  ghost predicate LastTouched(d: Disk, id: string, m: int) {
    && (exists k :: Path(id, k) in d && d[Path(id, k)].mod == m)
    && (forall k :: Path(id, k) in d ==> d[Path(id, k)].mod <= m)
  }

  /** There is nothing but the seven kinds of files. */
  lemma SevenKinds(k: Kind)
    ensures k.Records? || k.Stdout? || k.Stderr? || k.Json? || k.Combined? || k.LogsJson? || k.Marker?
  {
  }

  /** NewestMod is the time of the last modification, of whatever file. */
  lemma NewestIsLast(d: Disk, id: string)
    ensures NewestMod(d, id).None? <==> NoFiles(d, id)
    ensures forall m :: NewestMod(d, id) == Some(m) <==> LastTouched(d, id, m)
  {
    var n := NewestMod(d, id);
    forall k: Kind
      ensures Path(id, k) in d ==> n.Some? && d[Path(id, k)].mod <= n.value
    {
      SevenKinds(k);
    }
    if n.Some? {
      assert LastTouched(d, id, n.value);
    }
  }

  lemma NoFilesNoBytes(d: Disk, id: string)
    requires NoFiles(d, id)
    ensures BytesOf(d, id) == 0
  {
  }

  /** The record file and companionPaths of one artifact. */
  function PathsOf(id: string): set<Path> {
    {Path(id, Records), Path(id, Stdout), Path(id, Stderr), Path(id, Json), Path(id, Combined), Path(id, LogsJson),
      Path(id, Marker)}
  }

  lemma RemoveAll(d: Disk, gone: set<string>, id: string)
    ensures Without(d, gone) - PathsOf(id) == Without(d, gone + {id})
  {
    forall p: Path
      ensures p in PathsOf(id) <==> p.id == id
    {
      assert p == Path(p.id, p.kind);
      var k := p.kind;
      assert k.Records? || k.Stdout? || k.Stderr? || k.Json? || k.Combined? || k.LogsJson? || k.Marker?;
    }
  }
}
