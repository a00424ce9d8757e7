/**
  The self-contained app bundle: executable, archive and a trailing signature.

  The archive format itself is a parameter: `pack` and `unpack` stand for the zip writer and
  reader, which keep an ordered list of names and contents.
 */
module AppBundle {
  import opened Wrappers
  import opened Sequences
  import opened Segments
  import opened PathMeaning
  import opened PosixRelative
  import BitStream

  type Bytes = seq<Byte>

  datatype ArchiveEntry = ArchiveEntry(name: string, contents: Bytes)

  // ---- Signature

  const MAGIC: Bytes := [76, 85, 65, 90, 73, 80]  // "LUAZIP"
  const SIGNATURE_SIZE := 24

  /** An unsigned integer of k bytes, little endian. */
  function ToLittleEndian(n: nat, k: nat): (r: Bytes)
    ensures |r| == k
  {
    if k == 0 then [] else [n % 256] + ToLittleEndian(n / 256, k - 1)
  }

  function FromLittleEndian(bytes: Bytes): (n: nat) {
    if bytes == [] then 0 else bytes[0] as int + 256 * FromLittleEndian(bytes[1..])
  }

  ghost function Pow256(k: nat): (r: nat)
    ensures r >= 1
  {
    if k == 0 then 1 else 256 * Pow256(k - 1)
  }

  lemma {:induction false} DivideTwice(n: nat, p: nat)
    requires p > 0
    ensures n / 256 / p == n / (256 * p)
  {
    var m := n / 256;
    var q, rest := m / p, m % p;
    assert m == p * q + rest;
    assert 256 * p * q == 256 * (p * q);
    BitStream.DivModUnique(n, 256 * p, q, 256 * rest + n % 256);
  }

  /** Byte i is digit i of the number, counted from the least significant. */
  lemma {:induction false} LittleEndianDigits(n: nat, k: nat, i: nat)
    requires i < k
    ensures ToLittleEndian(n, k)[i] == n / Pow256(i) % 256
    decreases i
  {
    if i > 0 {
      LittleEndianDigits(n / 256, k - 1, i - 1);
      DivideTwice(n, Pow256(i - 1));
    }
  }

  /** Numbers that fit into k bytes survive. */
  lemma {:induction false} LittleEndianRoundTrip(n: nat, k: nat)
    requires n < Pow256(k)
    ensures FromLittleEndian(ToLittleEndian(n, k)) == n
    decreases k
  {
    if k > 0 {
      LittleEndianRoundTrip(n / 256, k - 1);
      assert ToLittleEndian(n, k)[1..] == ToLittleEndian(n / 256, k - 1);
    }
  }

  lemma {:induction false} LowByte(low: Byte, rest: nat)
    ensures (low + 256 * rest) % 256 == low && (low + 256 * rest) / 256 == rest
  {
  }

  /** And so do the bytes of a field. */
  lemma {:induction false} FieldRoundTrip(bytes: Bytes)
    ensures ToLittleEndian(FromLittleEndian(bytes), |bytes|) == bytes
  {
    if bytes != [] {
      var n := FromLittleEndian(bytes[1..]);
      FieldRoundTrip(bytes[1..]);
      LowByte(bytes[0], n);
      assert bytes == [bytes[0]] + bytes[1..];
    }
  }

  datatype Signature = Signature(versionMajor: int, versionMinor: int, executableSize: nat, archiveSize: nat)

  /** The packed layout: six magic bytes, two version bytes, two 64-bit sizes. */
  function SignatureBytes(s: Signature): (r: Bytes)
    requires 0 <= s.versionMajor < 256 && 0 <= s.versionMinor < 256
    ensures |r| == SIGNATURE_SIZE
  {
    MAGIC + [s.versionMajor, s.versionMinor] + ToLittleEndian(s.executableSize, 8) + ToLittleEndian(s.archiveSize, 8)
  }

  /** Where what is in a signature. */
  lemma {:induction false} SignatureLayout(s: Signature, i: nat)
    requires 0 <= s.versionMajor < 256 && 0 <= s.versionMinor < 256
    ensures var r := SignatureBytes(s);
            && (i < 6 ==> r[i] == "LUAZIP"[i] as int)
            && r[6] == s.versionMajor && r[7] == s.versionMinor
            && (i < 8 ==> r[8 + i] == s.executableSize / Pow256(i) % 256)
            && (i < 8 ==> r[16 + i] == s.archiveSize / Pow256(i) % 256)
  {
    if i < 8 {
      LittleEndianDigits(s.executableSize, 8, i);
      LittleEndianDigits(s.archiveSize, 8, i);
    }
  }

  function Bundle(executable: Bytes, archive: Bytes): (r: Bytes) {
    executable + archive + SignatureBytes(Signature(1, 0, |executable|, |archive|))
  }

  // ---- Decoding

  datatype ZipApp = ZipApp(signature: Signature, executable: Bytes, archive: Bytes)

  /** The contents end in this signature, and begin with the executable and the archive in the sizes it says, as
      far as there is that much. */
  ghost predicate IsAppOf(app: ZipApp, contents: Bytes) {
    var s := app.signature;
    && 0 <= s.versionMajor < 256 && 0 <= s.versionMinor < 256
    && |contents| >= SIGNATURE_SIZE && contents[|contents| - SIGNATURE_SIZE..] == SignatureBytes(s)
    && app.executable == contents[..Min(s.executableSize, |contents|)]
    && app.executable + app.archive == contents[..Min(s.executableSize + s.archiveSize, |contents|)]
  }

  function Decode(contents: Bytes): (r: Result<ZipApp, string>)
    ensures r.Ok? <==> |contents| >= SIGNATURE_SIZE && contents[|contents| - SIGNATURE_SIZE..][..6] == MAGIC
    ensures r.Ok? ==> IsAppOf(r.value, contents)
  {
    if |contents| < SIGNATURE_SIZE then Err("Failed to decode LUAZIP buffer (input size is too small)")
    else
      var trailing := contents[|contents| - SIGNATURE_SIZE..];
      if trailing[..6] != MAGIC then Err("Failed to decode LUAZIP buffer (magic value is missing)")
      else
        var signature := Signature(trailing[6] as int, trailing[7] as int,
                                   FromLittleEndian(trailing[8..16]), FromLittleEndian(trailing[16..24]));
        TrailerIsSignature(trailing);
        PartsInFront(contents, signature.executableSize, signature.archiveSize);
        Ok(ZipApp(signature,
                  Slice(contents, 0, signature.executableSize),
                  Slice(contents, signature.executableSize, signature.executableSize + signature.archiveSize)))
  }

  ghost function Min(a: int, b: int): (r: int) {
    if a < b then a else b
  }

  /** Two clipped parts, one after the other, are the clipped whole. */
  lemma {:induction false} PartsInFront(contents: Bytes, first: nat, second: nat)
    ensures Slice(contents, 0, first) == contents[..Min(first, |contents|)]
    ensures Slice(contents, 0, first) + Slice(contents, first, first + second)
         == contents[..Min(first + second, |contents|)]
  {
  }

  /** Reading the fields of a signature loses nothing. */
  lemma {:induction false} TrailerIsSignature(trailing: Bytes)
    requires |trailing| == SIGNATURE_SIZE && trailing[..6] == MAGIC
    ensures trailing == SignatureBytes(Signature(trailing[6] as int, trailing[7] as int,
                                                 FromLittleEndian(trailing[8..16]), FromLittleEndian(trailing[16..24])))
  {
    FieldRoundTrip(trailing[8..16]);
    FieldRoundTrip(trailing[16..24]);
    assert trailing == trailing[..6] + [trailing[6], trailing[7]] + trailing[8..16] + trailing[16..24];
  }

  /** Decoding accepts nothing but bundles and contents whose sizes do not add up: if they do, building the bundle
      again gives the contents back. */
  lemma {:induction false} BundleOfDecoded(contents: Bytes)
    requires Decode(contents).Ok?
    requires var s := Decode(contents).value.signature;
             && s.versionMajor == 1 && s.versionMinor == 0
             && s.executableSize + s.archiveSize + SIGNATURE_SIZE == |contents|
    ensures var app := Decode(contents).value; Bundle(app.executable, app.archive) == contents
  {
    var app, n := Decode(contents).value, |contents| - SIGNATURE_SIZE;
    assert app.executable + app.archive == contents[..n];
    assert contents == contents[..n] + contents[n..];
    assert app.signature == Signature(1, 0, |app.executable|, |app.archive|);
  }

  lemma {:induction false} EightBytes(n: nat)
    requires n < 0x20_0000_0000_0000
    ensures n < Pow256(8)
  {
    assert Pow256(4) == 0x1_0000_0000 * Pow256(0);
    assert Pow256(8) == 0x1_0000_0000 * Pow256(4);
  }

  /** Decoding a bundle gives back exactly what went into it. */
  lemma {:induction false} DecodeBundle(executable: Bytes, archive: Bytes)
    requires |executable| < 0x20_0000_0000_0000 && |archive| < 0x20_0000_0000_0000
    ensures Decode(Bundle(executable, archive))
         == Ok(ZipApp(Signature(1, 0, |executable|, |archive|), executable, archive))
  {
    var s := Signature(1, 0, |executable|, |archive|);
    var contents, trailer := Bundle(executable, archive), SignatureBytes(s);
    assert contents[|contents| - SIGNATURE_SIZE..] == trailer;
    assert trailer[..6] == MAGIC && trailer[6] == 1 && trailer[7] == 0;
    assert contents[0..|executable|] == executable;
    assert contents[|executable|..|executable| + |archive|] == archive;
    assert trailer[8..16] == ToLittleEndian(|executable|, 8);
    assert trailer[16..24] == ToLittleEndian(|archive|, 8);
    EightBytes(|executable|);
    EightBytes(|archive|);
    LittleEndianRoundTrip(|executable|, 8);
    LittleEndianRoundTrip(|archive|, 8);
  }

  // ---- Extraction

  ghost function Find(entries: seq<ArchiveEntry>, name: string): (r: Option<Bytes>) {
    if entries == [] then None
    else if entries[0].name == name then Some(entries[0].contents)
    else Find(entries[1..], name)
  }

  method Extract(entries: seq<ArchiveEntry>, filePath: string) returns (r: Result<Bytes, string>)
    ensures match Find(entries, filePath)
            case Some(contents) => r == Ok(contents)
            case None => r.Err?
  {
    var index := 0;
    while index < |entries|
      invariant 0 <= index <= |entries| && Find(entries, filePath) == Find(entries[index..], filePath)
    {
      assert entries[index..][1..] == entries[index + 1..];
      if entries[index].name == filePath {
        return Ok(entries[index].contents);
      }
      index := index + 1;
    }
    return Err("Failed to extract file " + filePath + " (no such entry exists)");
  }

  /** The first entry of that name is found; nothing is found exactly if there is none. */
  lemma {:induction false} FindFirst(entries: seq<ArchiveEntry>, name: string)
    ensures match Find(entries, name)
            case None => forall i :: 0 <= i < |entries| ==> entries[i].name != name
            case Some(contents) =>
              exists i :: 0 <= i < |entries| && entries[i] == ArchiveEntry(name, contents)
                          && forall j :: 0 <= j < i ==> entries[j].name != name
  {
    if entries != [] {
      var rest := entries[1..];
      FindFirst(rest, name);
      if entries[0].name == name {
        assert entries[0] == ArchiveEntry(name, Find(entries, name).value);
      } else {
        assert forall i :: 0 < i < |entries| ==> entries[i] == rest[i - 1];
        if Find(rest, name).Some? {
          var i :| 0 <= i < |rest| && rest[i] == ArchiveEntry(name, Find(rest, name).value)
                   && forall j :: 0 <= j < i ==> rest[j].name != name;
          assert entries[i + 1] == ArchiveEntry(name, Find(entries, name).value);
        }
      }
    }
  }

  lemma {:induction false} FindUnique(entries: seq<ArchiveEntry>, i: nat)
    requires i < |entries| && forall j :: 0 <= j < i ==> entries[j].name != entries[i].name
    ensures Find(entries, entries[i].name) == Some(entries[i].contents)
    decreases i
  {
    if i > 0 {
      assert entries[0].name != entries[i].name;
      assert forall j :: 0 <= j < i - 1 ==> entries[1..][j] == entries[j + 1];
      FindUnique(entries[1..], i - 1);
    }
  }

  // ---- Building

  /** The name a file gets in the archive: its path relative to the input directory. */
  ghost function ArchiveName(cwd: string, inputDirectory: string, file: string): (r: string) {
    Join(RelativeSteps(Target(cwd, [inputDirectory]), Target(cwd, [file])), '/')
  }

  ghost function ArchiveEntries(cwd: string, inputDirectory: string, files: map<string, Bytes>, order: seq<string>)
    : (r: seq<ArchiveEntry>)
    requires forall i :: 0 <= i < |order| ==> order[i] in files
    ensures |r| == |order|
  {
    if order == [] then []
    else
      var init, last := order[..|order| - 1], order[|order| - 1];
      ArchiveEntries(cwd, inputDirectory, files, init)
      + [ArchiveEntry(ArchiveName(cwd, inputDirectory, last), files[last])]
  }

  lemma {:induction false} ArchiveEntryAt(cwd: string, inputDirectory: string, files: map<string, Bytes>,
                                          order: seq<string>, i: nat)
    requires i < |order| && forall j :: 0 <= j < |order| ==> order[j] in files
    ensures ArchiveEntries(cwd, inputDirectory, files, order)[i]
         == ArchiveEntry(ArchiveName(cwd, inputDirectory, order[i]), files[order[i]])
    decreases |order|
  {
    hide ArchiveName;
    if i < |order| - 1 {
      ArchiveEntryAt(cwd, inputDirectory, files, order[..|order| - 1], i);
    }
  }

  ghost function TotalSize(files: map<string, Bytes>, order: seq<string>): (n: nat)
    requires forall i :: 0 <= i < |order| ==> order[i] in files
  {
    if order == [] then 0 else TotalSize(files, order[..|order| - 1]) + |files[order[|order| - 1]]|
  }

  /** Adds the files in the given (sorted) order and puts the bundle together. */
  method BuildZipApp(inputDirectory: string, files: map<string, Bytes>, orderedFiles: seq<string>, cwd: string,
                     runtime: Bytes, pack: seq<ArchiveEntry> -> Bytes)
    returns (bundle: Bytes, numFilesAdded: nat, numBytesAdded: nat)
    requires IsAbsolute(cwd) && forall i :: 0 <= i < |orderedFiles| ==> orderedFiles[i] in files
    ensures bundle == Bundle(runtime, pack(ArchiveEntries(cwd, inputDirectory, files, orderedFiles)))
    ensures numFilesAdded == |orderedFiles| && numBytesAdded == TotalSize(files, orderedFiles)
  {
    var entries: seq<ArchiveEntry> := [];
    numFilesAdded, numBytesAdded := 0, 0;
    while numFilesAdded < |orderedFiles|
      invariant 0 <= numFilesAdded <= |orderedFiles|
      invariant entries == ArchiveEntries(cwd, inputDirectory, files, orderedFiles[..numFilesAdded])
      invariant numBytesAdded == TotalSize(files, orderedFiles[..numFilesAdded])
    {
      var filePath := orderedFiles[numFilesAdded];
      assert orderedFiles[..numFilesAdded + 1][..numFilesAdded] == orderedFiles[..numFilesAdded];
      var relativePath := Relative(inputDirectory, filePath, cwd);
      entries := entries + [ArchiveEntry(relativePath, files[filePath])];
      numBytesAdded := numBytesAdded + |files[filePath]|;
      numFilesAdded := numFilesAdded + 1;
    }
    assert orderedFiles[..numFilesAdded] == orderedFiles;
    var zip := pack(entries);
    bundle := runtime + zip + SignatureBytes(Signature(1, 0, |runtime|, |zip|));
  }

  /** From the built bundle, every file comes out under its relative path, whatever order they were added in,
      as long as no two of them are the same file. */
  lemma {:induction false} ExtractAfterBuild(cwd: string, inputDirectory: string, files: map<string, Bytes>,
                                             order: seq<string>, runtime: Bytes, pack: seq<ArchiveEntry> -> Bytes,
                                             unpack: Bytes -> seq<ArchiveEntry>, i: nat)
    requires forall j :: 0 <= j < |order| ==> order[j] in files
    requires forall es :: unpack(pack(es)) == es
    requires forall j, k :: 0 <= j < k < |order| ==> Target(cwd, [order[j]]) != Target(cwd, [order[k]])
    requires i < |order|
    requires var zip := pack(ArchiveEntries(cwd, inputDirectory, files, order));
             |runtime| < 0x20_0000_0000_0000 && |zip| < 0x20_0000_0000_0000
    ensures var zip := pack(ArchiveEntries(cwd, inputDirectory, files, order));
            var app := Decode(Bundle(runtime, zip));
            && app.Ok? && app.value.executable == runtime && app.value.archive == zip
            && Find(unpack(app.value.archive), ArchiveName(cwd, inputDirectory, order[i])) == Some(files[order[i]])
  {
    var entries := ArchiveEntries(cwd, inputDirectory, files, order);
    DecodeBundle(runtime, pack(entries));
    ArchiveEntryAt(cwd, inputDirectory, files, order, i);
    forall j | 0 <= j < i
      ensures entries[j].name != entries[i].name
    {
      ArchiveEntryAt(cwd, inputDirectory, files, order, j);
      if entries[j].name == entries[i].name {
        RelativeInjective(cwd, inputDirectory, order[j], order[i]);
      }
    }
    FindUnique(entries, i);
  }
}
