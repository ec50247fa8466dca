/** Staging and verifying a generation: streamed copy with a running digest, the read-only twin of the
    copy, and the comparison of a generation's files with its manifest. */
module Staging {
  import opened Prelude

  /** SHA-256 (section 6.2 of FIPS 180-4) as an uninterpreted function of the whole message. */
  const Sha256: Bytes -> Bytes

  const BUFFER: nat := 64 * 1024

  /** The incremental interface: a digest depends on the bytes absorbed, not on how they were split. */
  datatype Hasher = Hasher(absorbed: Bytes) {
    function Update(more: Bytes): Hasher {
      Hasher(absorbed + more)
    }

    function Finalize(): Bytes {
      Sha256(absorbed)
    }
  }

  function HexDigit(n: nat): char
    requires n < 16
  {
    (if n < 10 then 48 + n else 87 + n) as char
  }

  function HexDigest(d: Bytes): string {
    if d == [] then "" else [HexDigit(d[0] / 16), HexDigit(d[0] % 16)] + HexDigest(d[1..])
  }

  function Sha(bytes: Bytes): string {
    HexDigest(Sha256(bytes))
  }

  lemma {:induction false} HexDigitInjective(m: nat, n: nat)
    requires m < 16 && n < 16 && HexDigit(m) == HexDigit(n)
    ensures m == n
  {
  }

  /** Equal spellings mean equal digests, so comparing the hex is comparing the hash. */
  lemma {:induction false} HexDigestInjective(a: Bytes, b: Bytes)
    requires HexDigest(a) == HexDigest(b)
    ensures a == b
  {
    if a != [] && b != [] {
      var x, y := HexDigest(a), HexDigest(b);
      assert x[0] == HexDigit(a[0] / 16) && y[0] == HexDigit(b[0] / 16);
      assert x[1] == HexDigit(a[0] % 16) && y[1] == HexDigit(b[0] % 16);
      HexDigitInjective(a[0] / 16, b[0] / 16);
      HexDigitInjective(a[0] % 16, b[0] % 16);
      assert x[2..] == HexDigest(a[1..]) && y[2..] == HexDigest(b[1..]);
      HexDigestInjective(a[1..], b[1..]);
      assert a == [a[0]] + a[1..] && b == [b[0]] + b[1..];
    }
  }

  lemma {:induction false} HexDigitIs(n: nat)
    requires n < 16
    ensures HexDigit(n) == "0123456789abcdef"[n]
  {
  }

  /** The digits of a digest: two lower-case ones per byte, in the order of the bytes, the high one first. */
  lemma {:induction false} HexDigestSpells(d: Bytes, i: nat)
    requires i < |d|
    ensures |HexDigest(d)| == 2 * |d|
    ensures HexDigest(d)[2 * i] == "0123456789abcdef"[d[i] / 16]
    ensures HexDigest(d)[2 * i + 1] == "0123456789abcdef"[d[i] % 16]
  {
    HexDigitIs(d[i] / 16);
    HexDigitIs(d[i] % 16);
    HexDigestAt(d, i);
  }

  lemma {:induction false} HexDigestAt(d: Bytes, i: nat)
    requires i < |d|
    ensures |HexDigest(d)| == 2 * |d|
    ensures HexDigest(d)[2 * i] == HexDigit(d[i] / 16) && HexDigest(d)[2 * i + 1] == HexDigit(d[i] % 16)
  {
    if |d| > 1 {
      HexDigestAt(d[1..], if i > 0 then i - 1 else 0);
    }
  }

  /** What the file system does at one offset: a read fails, or reads at most so many bytes, of which all or
      only so many are then written. */
  datatype Chunk = ReadFails | Read(count: nat, stopsAfter: Option<nat>)

  /** One copy or one pass over a file: whether the source opens and the destination can be created, what
      happens at each offset, and whether flushing and setting the mode work. */
  datatype Io = Io(opens: bool, creates: bool, chunk: nat -> Chunk, finishes: bool)

  ghost predicate Undisturbed(io: Io) {
    io.opens && io.creates && io.finishes && forall at: nat :: io.chunk(at).Read? && io.chunk(at).stopsAfter.None?
  }

  /** A read returns nothing only at the end, and never more than the buffer. */
  function ReadSize(count: nat, left: nat): nat {
    Min(Max(count, 1), Min(BUFFER, left))
  }

  /** Streams `src` to a new file, up to a read that returns nothing. Whatever the chunking, success means the
      file holds exactly `src` and the digest and length are those of `src`; failure leaves no file or a
      prefix. */
  method CopyAndHash(src: Bytes, io: Io) returns (r: Result<(string, nat), ()>, dst: Option<Bytes>)
    ensures r.Ok? ==> dst == Some(src) && r.value == (Sha(src), |src|)
    ensures dst.Some? ==> dst.value <= src
    ensures dst.None? <==> !io.opens || !io.creates
    ensures Undisturbed(io) ==> r.Ok?
  {
    if !io.opens || !io.creates {
      return Err(()), None;
    }
    var hasher := Hasher([]);
    var out: Bytes := [];
    var total := 0;
    while true
      invariant total <= |src| && out == src[..total] && hasher.absorbed == src[..total]
      decreases |src| - total
    {
      var chunk := io.chunk(total);
      if chunk.ReadFails? {
        return Err(()), Some(out);
      }
      var k := ReadSize(chunk.count, |src| - total);
      if k == 0 {
        break;
      }
      var buf := src[total..total + k];
      assert src[..total] + buf == src[..total + k];
      if chunk.stopsAfter.Some? {
        var part := Min(chunk.stopsAfter.value, k);
        assert src[..total] + buf[..part] == src[..total + part];
        return Err(()), Some(out + buf[..part]);
      }
      hasher, out, total := hasher.Update(buf), out + buf, total + k;
    }
    assert src[..total] == src;
    if !io.finishes {
      return Err(()), Some(out);
    }
    return Ok((HexDigest(hasher.Finalize()), total)), Some(out);
  }

  /** Streams a file through the digest without copying it. */
  method HashFile(content: Bytes, io: Io) returns (r: Result<(string, nat), ()>)
    ensures r.Ok? ==> r.value == (Sha(content), |content|)
    ensures Undisturbed(io) ==> r.Ok?
  {
    if !io.opens {
      return Err(());
    }
    var hasher := Hasher([]);
    var total := 0;
    while true
      invariant total <= |content| && hasher.absorbed == content[..total]
      decreases |content| - total
    {
      var chunk := io.chunk(total);
      if chunk.ReadFails? {
        return Err(());
      }
      var k := ReadSize(chunk.count, |content| - total);
      if k == 0 {
        break;
      }
      assert content[..total] + content[total..total + k] == content[..total + k];
      hasher, total := hasher.Update(content[total..total + k]), total + k;
    }
    assert content[..total] == content;
    r := Ok((HexDigest(hasher.Finalize()), total));
  }

  // ---------------------------------------------------------------------------------------------
  // Paths
  // ---------------------------------------------------------------------------------------------

  /** The name of an entry of a directory. */
  predicate Plain(name: string) {
    name != "" && name != "." && name != ".." && '/' !in name
  }

  function SkipSlashes(path: string): (rest: string)
    ensures |rest| <= |path|
  {
    if path != "" && path[0] == '/' then SkipSlashes(path[1..]) else path
  }

  /** The entry of a directory that a path joined to it leads to; `None` if the path leads out of the
      directory or below it. */
  function Entry(path: string): Option<string>
    decreases |path|
  {
    if |path| >= 2 && path[0] == '.' && path[1] == '/' then Entry(SkipSlashes(path[2..]))
    else if Plain(path) then Some(path)
    else None
  }

  // ---------------------------------------------------------------------------------------------
  // Generations and their manifests
  // ---------------------------------------------------------------------------------------------

  datatype Artifact = Artifact(file: string, sha256: string, bytes: nat)

  /** The staged binaries in order, then the stamped fleet definition. */
  datatype Manifest = Manifest(gen: nat, artifacts: seq<Artifact>, fleet: Artifact)

  /** A generation directory. */
  type Dir = map<string, Bytes>

  const MANIFEST: string := "manifest.json"
  const FLEET: string := "fleet.toml"

  /** The text of a manifest, and what a text parses to, are left uninterpreted. */
  const Render: Manifest -> Bytes
  const Parse: Bytes -> Option<Manifest>

  /** The text written for a manifest parses back to it. */
  predicate ReadsBack(m: Manifest) {
    Parse(Render(m)) == Some(m)
  }

  /** The manifest of a directory; `None` while `manifest.json` is absent or unparseable. */
  function ManifestIn(d: Dir): Option<Manifest> {
    if MANIFEST in d then Parse(d[MANIFEST]) else None
  }

  function Recorded(m: Manifest): seq<Artifact> {
    m.artifacts + [m.fleet]
  }

  /** Whether an artifact agrees whose path leads out of the directory is left open. */
  const AgreesElsewhere: Artifact -> bool

  predicate Matches(bytes: Bytes, a: Artifact) {
    |bytes| == a.bytes && Sha(bytes) == a.sha256
  }

  predicate Agrees(d: Dir, a: Artifact) {
    match Entry(a.file)
    case Some(name) => name in d && Matches(d[name], a)
    case None => AgreesElsewhere(a)
  }

  /** The generation has a manifest and every artifact it records is there, unchanged. */
  predicate Intact(d: Dir) {
    ManifestIn(d).Some? && forall a :: a in Recorded(ManifestIn(d).value) ==> Agrees(d, a)
  }

  /** How reading a generation back goes: whether its manifest can be read, and each artifact's reads. */
  datatype ReadBack = ReadBack(manifest: bool, artifact: nat -> Io)

  ghost predicate Untroubled(rb: ReadBack) {
    rb.manifest && forall k: nat :: Undisturbed(rb.artifact(k))
  }

  /** Reads every recorded artifact back and counts the offenders. Passing means intact; an intact
      generation read without trouble passes. */
  method VerifyGeneration(d: Dir, rb: ReadBack) returns (ok: bool)
    ensures ok ==> Intact(d)
    ensures Intact(d) && Untroubled(rb) ==> ok
  {
    if !rb.manifest || ManifestIn(d).None? {
      return false;
    }
    var artifacts := Recorded(ManifestIn(d).value);
    var problems := 0;
    for k := 0 to |artifacts|
      invariant problems == 0 ==> forall j :: 0 <= j < k ==> Agrees(d, artifacts[j])
      invariant Intact(d) && Untroubled(rb) ==> problems == 0
      invariant problems >= 0
    {
      var a := artifacts[k];
      assert a in artifacts;
      var name := Entry(a.file);
      if name.None? {
        if !AgreesElsewhere(a) {
          problems := problems + 1;
        }
      } else if name.value !in d {
        problems := problems + 1;
      } else {
        var hashed := HashFile(d[name.value], rb.artifact(k));
        if hashed.Err? || hashed.value.1 != a.bytes || hashed.value.0 != a.sha256 {
          problems := problems + 1;
        }
      }
    }
    ok := problems == 0;
  }

  // ---------------------------------------------------------------------------------------------
  // What a sequence of copies leaves behind
  // ---------------------------------------------------------------------------------------------

  datatype Item = Item(file: string, bytes: Bytes)

  function ArtifactOf(i: Item): Artifact {
    Artifact(i.file, Sha(i.bytes), |i.bytes|)
  }

  /** A directory after `i` was written to it. */
  function Put(d: Dir, i: Item): Dir {
    match Entry(i.file)
    case Some(name) => d[name := i.bytes]
    case None => d
  }

  /** A directory after writing the items in order: a later one at the same entry wins. */
  function Overlay(d: Dir, items: seq<Item>): Dir {
    if items == [] then d else Put(Overlay(d, items[..|items| - 1]), items[|items| - 1])
  }

  function FilesOf(items: seq<Item>): Dir {
    Overlay(map[], items)
  }

  /** Every path leads to an entry of the directory. */
  predicate AllDirect(items: seq<Item>) {
    forall i :: 0 <= i < |items| ==> Entry(items[i].file).Some?
  }

  function ManifestOf(gen: nat, items: seq<Item>): Manifest
    requires items != []
  {
    var n := |items| - 1;
    Manifest(gen, seq(n, i requires 0 <= i < n => ArtifactOf(items[i])), ArtifactOf(items[n]))
  }

  /** Everything a complete deploy of the items writes: the items, then the manifest that records them. */
  function Written(gen: nat, items: seq<Item>): seq<Item>
    requires items != []
  {
    items + [Item(MANIFEST, Render(ManifestOf(gen, items)))]
  }

  /** Items whose paths lead to one entry have one length and one digest. Among packages, the fleet definition
      and the manifest it fails only when a package's path leads to an entry of another one. */
  predicate Consistent(items: seq<Item>) {
    forall i, j :: 0 <= i < j < |items| && SameEntry(items[i], items[j]) ==> Matches(items[j].bytes, ArtifactOf(items[i]))
  }

  predicate SameEntry(a: Item, b: Item) {
    Entry(a.file).Some? && Entry(a.file) == Entry(b.file)
  }

  /** Item `i` is the last that leads to entry `f`. */
  predicate LastAt(items: seq<Item>, i: nat, f: string) {
    && i < |items| && Entry(items[i].file) == Some(f)
    && forall j :: i < j < |items| ==> Entry(items[j].file) != Some(f)
  }

  /** Of the items that lead to an entry, the last one wins, whatever was there before. */
  lemma {:induction false} LastOverlayWins(d: Dir, items: seq<Item>, f: string, i: nat)
    requires LastAt(items, i, f)
    ensures f in Overlay(d, items) && Overlay(d, items)[f] == items[i].bytes
  {
    var n := |items| - 1;
    if i < n {
      assert Entry(items[n].file) != Some(f);
      LastOverlayWins(d, items[..n], f, i);
    }
  }

  /** What no item leads to is as it was. */
  lemma {:induction false} OverlayElsewhere(d: Dir, items: seq<Item>, f: string)
    requires forall i :: 0 <= i < |items| ==> Entry(items[i].file) != Some(f)
    ensures f in Overlay(d, items) <==> f in d
    ensures f in d ==> Overlay(d, items)[f] == d[f]
  {
    if items != [] {
      OverlayElsewhere(d, items[..|items| - 1], f);
    }
  }

  lemma {:induction false} LastCopyWins(items: seq<Item>, f: string, i: nat)
    requires LastAt(items, i, f)
    ensures f in FilesOf(items) && FilesOf(items)[f] == items[i].bytes
  {
    LastOverlayWins(map[], items, f, i);
  }

  lemma {:induction false} LastOf(items: seq<Item>, i: nat, f: string) returns (j: nat)
    requires i < |items| && Entry(items[i].file) == Some(f)
    ensures i <= j && LastAt(items, j, f)
  {
    var n := |items| - 1;
    if Entry(items[n].file) == Some(f) {
      j := n;
    } else {
      j := LastOf(items[..n], i, f);
      assert LastAt(items[..n], j, f);
    }
  }

  lemma {:induction false} RecordedItems(gen: nat, items: seq<Item>, a: Artifact)
    requires items != []
    ensures a in Recorded(ManifestOf(gen, items)) <==> exists i :: 0 <= i < |items| && a == ArtifactOf(items[i])
  {
    var r := Recorded(ManifestOf(gen, items));
    assert |r| == |items| && forall i :: 0 <= i < |items| ==> r[i] == ArtifactOf(items[i]);
  }

  lemma {:induction false} ManifestEntry()
    ensures Entry(MANIFEST) == Some(MANIFEST) && Entry(FLEET) == Some(FLEET)
  {
  }

  lemma {:induction false} ManifestIsWritten(gen: nat, items: seq<Item>)
    requires items != [] && ReadsBack(ManifestOf(gen, items))
    ensures ManifestIn(FilesOf(Written(gen, items))) == Some(ManifestOf(gen, items))
  {
    var w := Written(gen, items);
    ManifestEntry();
    LastCopyWins(w, MANIFEST, |items|);
  }

  lemma {:induction false} ConsistentIsIntact(gen: nat, items: seq<Item>)
    requires items != [] && ReadsBack(ManifestOf(gen, items)) && AllDirect(items) && Consistent(Written(gen, items))
    ensures Intact(FilesOf(Written(gen, items)))
  {
    ManifestIsWritten(gen, items);
    var w := Written(gen, items);
    forall a | a in Recorded(ManifestOf(gen, items)) ensures Agrees(FilesOf(w), a) {
      RecordedItems(gen, items, a);
      var i :| 0 <= i < |items| && a == ArtifactOf(items[i]);
      assert w[i] == items[i];
      var f := Entry(w[i].file).value;
      var j := LastOf(w, i, f);
      LastCopyWins(w, f, j);
      assert i < j ==> SameEntry(w[i], w[j]);
    }
  }

  lemma {:induction false} IntactAgrees(gen: nat, items: seq<Item>, d: Dir, i: nat)
    requires items != [] && i < |items| && ManifestIn(d) == Some(ManifestOf(gen, items)) && Intact(d)
    ensures Agrees(d, ArtifactOf(items[i]))
  {
    RecordedItems(gen, items, ArtifactOf(items[i]));
  }

  /** Whatever an item before the manifest says, the file at its entry matches. */
  lemma {:induction false} IntactIsConsistent(gen: nat, items: seq<Item>)
    requires items != [] && ReadsBack(ManifestOf(gen, items)) && Intact(FilesOf(Written(gen, items)))
    ensures Consistent(Written(gen, items))
  {
    ManifestIsWritten(gen, items);
    ManifestEntry();
    var w, d := Written(gen, items), FilesOf(Written(gen, items));
    LastCopyWins(w, MANIFEST, |items|);
    forall i, j | 0 <= i < j < |w| && SameEntry(w[i], w[j]) ensures Matches(w[j].bytes, ArtifactOf(w[i])) {
      IntactAgrees(gen, items, d, i);
      if j < |items| {
        IntactAgrees(gen, items, d, j);
      }
    }
  }

  /** Staging round trip: the directory a complete deploy leaves, manifest and all, verifies exactly when no
      two of the files written lead to one entry with different contents. */
  lemma {:induction false} StagedIsIntactIffConsistent(gen: nat, items: seq<Item>)
    requires items != [] && ReadsBack(ManifestOf(gen, items)) && AllDirect(items)
    ensures Intact(FilesOf(Written(gen, items))) <==> Consistent(Written(gen, items))
  {
    if Consistent(Written(gen, items)) {
      ConsistentIsIntact(gen, items);
    }
    if Intact(FilesOf(Written(gen, items))) {
      IntactIsConsistent(gen, items);
    }
  }

  /** A generation that verifies against the manifest of the staged items holds exactly their bytes, or
      exhibits two different files of one length with one SHA-256 digest. */
  lemma {:induction false} IntactHoldsStagedBytes(d: Dir, gen: nat, items: seq<Item>, i: nat)
    requires items != [] && i < |items| && Entry(items[i].file).Some?
    requires ManifestIn(d) == Some(ManifestOf(gen, items)) && Intact(d)
    ensures Entry(items[i].file).value in d
    ensures var found := d[Entry(items[i].file).value];
            found == items[i].bytes || (|found| == |items[i].bytes| && Sha256(found) == Sha256(items[i].bytes))
  {
    IntactAgrees(gen, items, d, i);
    HexDigestInjective(Sha256(d[Entry(items[i].file).value]), Sha256(items[i].bytes));
  }

  /** A package whose path leads to the entry of another file written, of another length, makes the generation
      fail verification. */
  lemma {:induction false} EntriesCollide(gen: nat, items: seq<Item>, i: nat, j: nat)
    requires items != [] && ReadsBack(ManifestOf(gen, items)) && AllDirect(items)
    requires var w := Written(gen, items); i < j < |w| && SameEntry(w[i], w[j]) && |w[i].bytes| != |w[j].bytes|
    ensures !Intact(FilesOf(Written(gen, items)))
  {
    StagedIsIntactIffConsistent(gen, items);
  }

  /** So does a package called like the stamped fleet definition, in its plain or in its dotted spelling. */
  lemma {:induction false} FleetNameCollides(gen: nat, package: string, program: Bytes, fleet: Bytes)
    requires package in {"fleet.toml", "./fleet.toml"} && |program| != |fleet|
    requires ReadsBack(ManifestOf(gen, [Item(package, program), Item(FLEET, fleet)]))
    ensures !Intact(FilesOf(Written(gen, [Item(package, program), Item(FLEET, fleet)])))
  {
    var items := [Item(package, program), Item(FLEET, fleet)];
    ManifestEntry();
    DottedFleet();
    assert Written(gen, items)[0] == items[0] && Written(gen, items)[1] == items[1];
    EntriesCollide(gen, items, 0, 1);
  }

  lemma {:induction false} DottedFleet()
    ensures Entry("./fleet.toml") == Some(FLEET)
  {
    assert "./fleet.toml"[2..] == FLEET;
    ManifestEntry();
  }

  /** And a package called like the manifest. */
  lemma {:induction false} ManifestNameCollides(gen: nat, program: Bytes, fleet: Bytes)
    requires var items := [Item(MANIFEST, program), Item(FLEET, fleet)];
             ReadsBack(ManifestOf(gen, items)) && |program| != |Render(ManifestOf(gen, items))|
    ensures !Intact(FilesOf(Written(gen, [Item(MANIFEST, program), Item(FLEET, fleet)])))
  {
    var items := [Item(MANIFEST, program), Item(FLEET, fleet)];
    ManifestEntry();
    EntriesCollide(gen, items, 0, 2);
  }

  /** A path can lead into another generation. */
  lemma {:induction false} PathsCanLeadOut()
    ensures Entry("../gen-3/x") == None
  {
    assert "../gen-3/x"[2] == '/';
  }
}
