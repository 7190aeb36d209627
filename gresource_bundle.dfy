/**
 * The GResource bundle builder (gvdb/src/gresource/bundle.rs): one `FileData` per resource
 * file, gathered from an XML manifest or from a directory walk, then stored in a gvdb
 * table under its key as a `(size, flags, data)` record.
 *
 * The file system, the XML and JSON blank strippers and zlib are outside the model: they
 * are passed in as functions (`Transforms`, `read`), and a directory walk is the
 * sequence of entries WalkDir yields. The zvariant encoding of the record is the
 * function `encode`.
 */
module GResourceBundle {
  import opened Wrappers
  import opened GvdbUtil
  import opened GResourceXml
  import Unicode = Utf8
  import KeyOrder
  import Endian
  import WriteError
  import WriteItem
  import WriteBuilder
  import WriteLayout
  import WriteFile
  import WriteIndexing

  /** `FLAG_COMPRESSED`: bit 0 of the flags word. */
  const FLAG_COMPRESSED: u32 := 1

  /** The bytes of an ASCII text. */
  function Ascii(s: string): (r: bytes)
    requires forall i :: 0 <= i < |s| ==> s[i] as int < 128
    ensures |r| == |s|
  {
    seq(|s|, i requires 0 <= i < |s| => s[i] as int)
  }

  /** Names that `from_directory` never packs. */
  const SKIPPED_FILE_EXTENSIONS_DEFAULT: seq<bytes> :=
    [Ascii("meson.build"), Ascii("gresource.xml"), Ascii(".gitignore"), Ascii(".license")]

  /** Names that `from_directory` compresses when asked to compress. */
  const COMPRESS_EXTENSIONS_DEFAULT: seq<bytes> := [Ascii(".ui"), Ascii(".css")]

  /** `str::ends_with` */
  predicate EndsWith(s: bytes, suffix: bytes)
  {
    |suffix| <= |s| && s[|s| - |suffix|..] == suffix
  }

  /** The name ends with one of the suffixes. */
  predicate EndsWithAny(s: bytes, suffixes: seq<bytes>)
  {
    exists j :: 0 <= j < |suffixes| && EndsWith(s, suffixes[j])
  }

  /** `BuilderError`, without the messages and paths it carries. */
  datatype BuilderError = Gvdb(error: WriteError.Error) | Io | Xml | Utf8 | Json | StripPrefix | Unimplemented

  /**
   * The transforms of the third-party libraries: quick_xml blank stripping, serde_json
   * re-serialisation and zlib compression. Each may fail.
   */
  datatype Transforms = Transforms(
    stripXml: bytes -> Result<bytes, BuilderError>,
    stripJson: bytes -> Result<bytes, BuilderError>,
    compress: bytes -> Result<bytes, BuilderError>)

  /** `FileData`: the key, the stored bytes, the flags and the uncompressed size. */
  datatype FileData = FileData(key: bytes, data: bytes, flags: u32, size: u32)

  /** `Data`, the record stored for each file, serialised with signature `(uuay)`. */
  datatype Data = Data(size: u32, flags: u32, data: bytes)

  /** `preprocess`: XML stripping, then JSON stripping; pixdata conversion is refused. */
  function Preprocess(data: bytes, options: PreprocessOptions, tr: Transforms): Result<bytes, BuilderError>
  {
    var afterXml :- if options.xmlStripblanks then tr.stripXml(data) else Ok(data);
    var afterJson :- if options.jsonStripblanks then tr.stripJson(afterXml) else Ok(afterXml);
    if options.toPixdata then Err(Unimplemented) else Ok(afterJson)
  }

  /**
   * The order of the steps: with no option the data passes unchanged; XML stripping runs
   * before JSON stripping; a pixdata request fails with `Unimplemented` whatever the
   * strippers do, unless a stripper fails first.
   */
  lemma PreprocessSpec(data: bytes, options: PreprocessOptions, tr: Transforms)
    ensures !options.xmlStripblanks && !options.jsonStripblanks && !options.toPixdata ==>
      Preprocess(data, options, tr) == Ok(data)
    ensures options == XmlStripblanks() ==> Preprocess(data, options, tr) == tr.stripXml(data)
    ensures options == JsonStripblanks() ==> Preprocess(data, options, tr) == tr.stripJson(data)
    ensures options.xmlStripblanks && options.jsonStripblanks && !options.toPixdata && tr.stripXml(data).Ok? ==>
      Preprocess(data, options, tr) == tr.stripJson(tr.stripXml(data).value)
    ensures options.toPixdata ==> Preprocess(data, options, tr).Err?
    ensures options.toPixdata && !options.xmlStripblanks && !options.jsonStripblanks ==>
      Preprocess(data, options, tr) == Err(Unimplemented)
  {
  }

  /** Bitwise or of two flag words. */
  function BitOr(a: u32, b: u32): u32
  {
    ((a as bv32) | (b as bv32)) as int
  }

  /** What `FileData::new` builds from raw data. */
  function FileDataOf(key: bytes, data: bytes, compressed: bool, options: PreprocessOptions, tr: Transforms)
    : Result<FileData, BuilderError>
  {
    var pre :- Preprocess(data, options, tr);
    if compressed then
      var packed :- tr.compress(pre);
      Ok(FileData(key, packed, BitOr(0, FLAG_COMPRESSED), |pre| % U32_LIMIT))
    else
      Ok(FileData(key, pre + [0], 0, |pre| % U32_LIMIT))
  }

  /**
   * The flag and size rules: the size is the length of the preprocessed data (as a u32),
   * before any terminator or compression; uncompressed data gets flags 0 and one NUL
   * appended; compressed data gets flags 1 and is the compressor's output, with no NUL.
   * Building fails exactly when preprocessing fails or the compressor does.
   */
  lemma FileDataSpec(key: bytes, data: bytes, compressed: bool, options: PreprocessOptions, tr: Transforms)
    ensures var r := FileDataOf(key, data, compressed, options, tr);
      var pre := Preprocess(data, options, tr);
      && (r.Ok? <==> pre.Ok? && (compressed ==> tr.compress(pre.value).Ok?))
      && (pre.Err? ==> r == Err(pre.error))
    ensures var r := FileDataOf(key, data, compressed, options, tr);
      var pre := Preprocess(data, options, tr);
      r.Ok? ==>
        && r.value.key == key
        && r.value.size == |pre.value| % U32_LIMIT
        && (compressed ==> r.value.flags == FLAG_COMPRESSED && r.value.data == tr.compress(pre.value).value)
        && (!compressed ==>
              r.value.flags == 0 && |r.value.data| == |pre.value| + 1
              && r.value.data[..|pre.value|] == pre.value && r.value.data[|pre.value|] == 0)
  {
    assert BitOr(0, FLAG_COMPRESSED) == FLAG_COMPRESSED by {
      assert (0 as bv32) | (1 as bv32) == 1 as bv32;
    }
    var pre := Preprocess(data, options, tr);
    if pre.Ok? && !compressed {
      assert (pre.value + [0])[..|pre.value|] == pre.value;
    }
  }

  /** `FileData::new`: preprocess, take the size, then compress or append the NUL. */
  method NewFileData(key: bytes, data: bytes, compressed: bool, options: PreprocessOptions, tr: Transforms)
    returns (r: Result<FileData, BuilderError>)
    ensures r == FileDataOf(key, data, compressed, options, tr)
  {
    var flags: u32 := 0;
    var pre := Preprocess(data, options, tr);
    if pre.Err? {
      return Err(pre.error);
    }
    var buffer := pre.value;
    var size: u32 := |buffer| % U32_LIMIT;
    if compressed {
      var packed := tr.compress(buffer);
      if packed.Err? {
        return Err(packed.error);
      }
      buffer := packed.value;
      flags := BitOr(flags, FLAG_COMPRESSED);
    } else {
      buffer := buffer + [0];
    }
    r := Ok(FileData(key, buffer, flags, size));
  }

  /** `std::cmp::Ordering` */
  datatype Ordering = Less | Equal | Greater

  /** `Ord for FileData`: the keys' byte order alone. */
  function Cmp(a: FileData, b: FileData): Ordering
  {
    if KeyOrder.LexLess(a.key, b.key) then Less
    else if a.key == b.key then Equal
    else Greater
  }

  /** `PartialEq for FileData`: equal keys. */
  predicate SameKey(a: FileData, b: FileData)
  {
    a.key == b.key
  }

  /**
   * The order compares keys only: two files with the same key are equal whatever their
   * data, it agrees with equality, and it is antisymmetric.
   */
  lemma CmpSpec(a: FileData, b: FileData)
    ensures Cmp(a, b) == Equal <==> SameKey(a, b)
    ensures Cmp(a, b) == Less <==> Cmp(b, a) == Greater
    ensures Cmp(a, b) == Less <==> KeyOrder.LexLess(a.key, b.key)
    ensures forall c, d :: SameKey(a, c) && SameKey(b, d) ==> Cmp(c, d) == Cmp(a, b)
  {
    KeyOrder.LexIrreflexive(a.key);
    if a.key != b.key {
      KeyOrder.LexTotal(a.key, b.key);
      if KeyOrder.LexLess(a.key, b.key) && KeyOrder.LexLess(b.key, a.key) {
        KeyOrder.LexTransitive(a.key, b.key, a.key);
      }
    }
  }

  /** The order is transitive. */
  lemma CmpTransitive(a: FileData, b: FileData, c: FileData)
    requires Cmp(a, b) == Less && Cmp(b, c) == Less
    ensures Cmp(a, c) == Less
  {
    KeyOrder.LexTransitive(a.key, b.key, c.key);
  }

  /** Sorted by key, in the order `Cmp` defines; equal keys may sit side by side. */
  predicate SortedByKey(s: seq<FileData>)
  {
    forall i, j :: 0 <= i < j < |s| ==> !KeyOrder.LexLess(s[j].key, s[i].key)
  }

  /** Insert one file after every file whose key is smaller. */
  function InsertByKey(x: FileData, s: seq<FileData>): seq<FileData>
  {
    if s == [] then [x]
    else if KeyOrder.LexLess(s[0].key, x.key) then [s[0]] + InsertByKey(x, s[1..])
    else [x] + s
  }

  /** `files.sort()`: a stable sort by key, here by insertion. */
  function SortByKey(s: seq<FileData>): seq<FileData>
  {
    if s == [] then [] else InsertByKey(s[0], SortByKey(s[1..]))
  }

  /** `a` is at most `b` in the key order. */
  lemma NotBelowTrans(a: bytes, b: bytes, c: bytes)
    requires !KeyOrder.LexLess(b, a) && !KeyOrder.LexLess(c, b)
    ensures !KeyOrder.LexLess(c, a)
  {
    if KeyOrder.LexLess(c, a) {
      if a == b {
      } else if b == c {
      } else {
        KeyOrder.LexTotal(a, b);
        KeyOrder.LexTotal(b, c);
        KeyOrder.LexTransitive(a, b, c);
        KeyOrder.LexTransitive(c, a, c);
        KeyOrder.LexIrreflexive(c);
      }
    }
  }

  /** Inserting into a sorted sequence keeps it sorted and adds exactly the one file. */
  lemma {:induction false} InsertByKeySpec(x: FileData, s: seq<FileData>)
    requires SortedByKey(s)
    ensures SortedByKey(InsertByKey(x, s))
    ensures multiset(InsertByKey(x, s)) == multiset(s) + multiset{x}
  {
    if s == [] {
    } else if KeyOrder.LexLess(s[0].key, x.key) {
      var t := InsertByKey(x, s[1..]);
      InsertByKeySpec(x, s[1..]);
      assert s == [s[0]] + s[1..];
      HeadStaysFirst(x, s, t);
      ConsSorted(s[0], t);
    } else {
      forall j | 0 <= j < |s| ensures !KeyOrder.LexLess(s[j].key, x.key) {
        if j > 0 {
          NotBelowTrans(x.key, s[0].key, s[j].key);
        }
      }
      ConsSorted(x, s);
    }
  }

  /** The head of a sorted sequence, below the inserted file, is below everything after it. */
  lemma HeadStaysFirst(x: FileData, s: seq<FileData>, t: seq<FileData>)
    requires s != [] && SortedByKey(s) && KeyOrder.LexLess(s[0].key, x.key)
    requires multiset(t) == multiset(s[1..]) + multiset{x}
    ensures forall j :: 0 <= j < |t| ==> !KeyOrder.LexLess(t[j].key, s[0].key)
  {
    forall j | 0 <= j < |t| ensures !KeyOrder.LexLess(t[j].key, s[0].key) {
      assert t[j] in multiset(t);
      if t[j] == x {
        KeyOrder.LexIrreflexive(x.key);
        if KeyOrder.LexLess(x.key, s[0].key) {
          KeyOrder.LexTransitive(x.key, s[0].key, x.key);
        }
      } else {
        assert t[j] in s[1..];
        var k :| 0 <= k < |s[1..]| && s[1..][k] == t[j];
        assert s[k + 1] == t[j];
      }
    }
  }

  /** A file no key of a sorted sequence is below, put in front, keeps it sorted. */
  lemma ConsSorted(h: FileData, t: seq<FileData>)
    requires SortedByKey(t) && forall j :: 0 <= j < |t| ==> !KeyOrder.LexLess(t[j].key, h.key)
    ensures SortedByKey([h] + t)
  {
    var r := [h] + t;
    forall i, j | 0 <= i < j < |r| ensures !KeyOrder.LexLess(r[j].key, r[i].key) {
      assert r[j] == t[j - 1];
      if i > 0 {
        assert r[i] == t[i - 1];
      }
    }
  }

  /** The sort yields a sorted permutation of its input. */
  lemma {:induction false} SortByKeySpec(s: seq<FileData>)
    ensures SortedByKey(SortByKey(s))
    ensures multiset(SortByKey(s)) == multiset(s)
  {
    if s != [] {
      SortByKeySpec(s[1..]);
      InsertByKeySpec(s[0], SortByKey(s[1..]));
      assert s == [s[0]] + s[1..];
    }
  }

  /** No two different files in the collection share a key. */
  predicate KeysUnique(m: multiset<FileData>)
  {
    forall a, b :: a in m && b in m && a.key == b.key ==> a == b
  }

  /** The first file of a sorted sequence is at most every file in it. */
  lemma FirstIsLeast(s: seq<FileData>, y: FileData)
    requires SortedByKey(s) && y in multiset(s)
    ensures !KeyOrder.LexLess(y.key, s[0].key)
  {
    var k :| 0 <= k < |s| && s[k] == y;
    if k > 0 {
      assert !KeyOrder.LexLess(s[k].key, s[0].key);
    } else {
      KeyOrder.LexIrreflexive(y.key);
    }
  }

  /**
   * Two sorted sequences holding the same files, no two of which share a key, are the
   * same sequence.
   */
  lemma {:induction false} SortedUnique(a: seq<FileData>, b: seq<FileData>)
    requires SortedByKey(a) && SortedByKey(b)
    requires multiset(a) == multiset(b) && KeysUnique(multiset(a))
    ensures a == b
    decreases |a|
  {
    if a != [] {
      TailsMatch(a, b);
      SortedUnique(a[1..], b[1..]);
      ConsEqual(a, b);
    }
  }

  /** The step of `SortedUnique`: the same first file, and tails that again qualify. */
  lemma TailsMatch(a: seq<FileData>, b: seq<FileData>)
    requires a != [] && SortedByKey(a) && SortedByKey(b)
    requires multiset(a) == multiset(b) && KeysUnique(multiset(a))
    ensures b != [] && a[0] == b[0]
    ensures SortedByKey(a[1..]) && SortedByKey(b[1..])
    ensures multiset(a[1..]) == multiset(b[1..]) && KeysUnique(multiset(a[1..]))
  {
    assert b != [] by {
      assert a[0] in multiset(b);
    }
    SameHead(a, b);
    SortedTail(a);
    SortedTail(b);
    UniqueTail(a);
    UniqueTail(b);
  }

  /** Sequences with the same first element and the same rest are equal. */
  lemma ConsEqual(a: seq<FileData>, b: seq<FileData>)
    requires a != [] && b != [] && a[0] == b[0] && a[1..] == b[1..]
    ensures a == b
  {
    assert a == [a[0]] + a[1..] && b == [b[0]] + b[1..];
  }

  /** Sorted sequences of the same files, no two sharing a key, start with the same file. */
  lemma SameHead(a: seq<FileData>, b: seq<FileData>)
    requires a != [] && b != [] && SortedByKey(a) && SortedByKey(b)
    requires multiset(a) == multiset(b) && KeysUnique(multiset(a))
    ensures a[0] == b[0]
  {
    assert a[0] in multiset(b) && b[0] in multiset(a);
    FirstIsLeast(a, b[0]);
    FirstIsLeast(b, a[0]);
    if a[0].key != b[0].key {
      KeyOrder.LexTotal(a[0].key, b[0].key);
    }
  }

  /** The rest of a sorted sequence is sorted. */
  lemma SortedTail(a: seq<FileData>)
    requires a != [] && SortedByKey(a)
    ensures SortedByKey(a[1..])
  {
    forall i, j | 0 <= i < j < |a| - 1 ensures !KeyOrder.LexLess(a[1..][j].key, a[1..][i].key) {
      assert a[1..][j] == a[j + 1] && a[1..][i] == a[i + 1];
    }
  }

  /** Without the first file, the rest holds the other files, still with distinct keys. */
  lemma UniqueTail(a: seq<FileData>)
    requires a != [] && KeysUnique(multiset(a))
    ensures multiset(a[1..]) == multiset(a) - multiset{a[0]} && KeysUnique(multiset(a[1..]))
  {
    assert a == [a[0]] + a[1..];
    assert multiset(a) == multiset{a[0]} + multiset(a[1..]);
    forall x, y | x in multiset(a[1..]) && y in multiset(a[1..]) && x.key == y.key ensures x == y {
      assert x in multiset(a) && y in multiset(a);
    }
  }

  /**
   * The bundle does not depend on the order files were found in: any two orders of the
   * same files, no two of which share a key, sort to the same sequence.
   */
  lemma SortOrderIrrelevant(s1: seq<FileData>, s2: seq<FileData>)
    requires multiset(s1) == multiset(s2) && KeysUnique(multiset(s1))
    ensures SortByKey(s1) == SortByKey(s2)
  {
    SortByKeySpec(s1);
    SortByKeySpec(s2);
    SortedUnique(SortByKey(s1), SortByKey(s2));
  }

  /** The files of a bundle; `from_file_data` takes them as given. */
  datatype BundleBuilder = BundleBuilder(files: seq<FileData>)

  /** The key prefix with a `/` appended unless it already ends with one. */
  function WithSlash(prefix: bytes): bytes
  {
    if |prefix| > 0 && prefix[|prefix| - 1] == WriteBuilder.SLASH then prefix else prefix + [WriteBuilder.SLASH]
  }

  /** `from_xml`'s key: the prefix, a `/` if it lacks one, then the alias or else the file name. */
  function XmlKey(prefix: bytes, file: File): bytes
  {
    WithSlash(prefix) + (if file.alias.Some? then file.alias.value else file.filename)
  }

  /**
   * The key starts with the prefix and one `/` between prefix and name: a prefix already
   * ending in `/` is used as is, any other prefix (the empty one too) gets one.
   */
  lemma XmlKeySpec(prefix: bytes, file: File)
    ensures var name := if file.alias.Some? then file.alias.value else file.filename;
      var key := XmlKey(prefix, file);
      && |key| == |WithSlash(prefix)| + |name|
      && key[..|prefix|] == prefix
      && key[|WithSlash(prefix)| - 1] == WriteBuilder.SLASH
      && key[|WithSlash(prefix)|..] == name
      && (EndsWith(prefix, [WriteBuilder.SLASH]) ==> key == prefix + name)
      && (!EndsWith(prefix, [WriteBuilder.SLASH]) ==> key == prefix + [WriteBuilder.SLASH] + name)
  {
    var name := if file.alias.Some? then file.alias.value else file.filename;
    var key := XmlKey(prefix, file);
    if EndsWith(prefix, [WriteBuilder.SLASH]) {
      assert prefix[|prefix| - 1..] == [prefix[|prefix| - 1]];
    }
    assert key[..|prefix|] == prefix by {
      assert key == WithSlash(prefix) + name;
      assert WithSlash(prefix)[..|prefix|] == prefix;
    }
  }

  /** A file of a manifest entry: its key and whether it is to be compressed. */
  predicate Packed(fd: FileData, key: bytes, compressed: bool)
  {
    fd.key == key && (compressed ==> fd.flags == FLAG_COMPRESSED) && (!compressed ==> fd.flags == 0)
  }

  /** `from_xml`'s inner loop from file `j` of one section on, after `acc`. */
  function SectionFrom(acc: seq<FileData>, dir: bytes, g: GResource, j: nat,
                       read: (bytes, bytes) -> Result<bytes, BuilderError>, tr: Transforms)
    : Result<seq<FileData>, BuilderError>
    requires j <= |g.files|
    decreases |g.files| - j
  {
    if j == |g.files| then Ok(acc)
    else
      var f := g.files[j];
      var data :- read(dir, f.filename);
      var fd :- FileDataOf(XmlKey(g.prefix, f), data, f.compressed, f.preprocess, tr);
      SectionFrom(acc + [fd], dir, g, j + 1, read, tr)
  }

  /** `from_xml`'s outer loop from section `i` on, after `acc`. */
  function ManifestFrom(acc: seq<FileData>, xml: XmlManifest, i: nat,
                        read: (bytes, bytes) -> Result<bytes, BuilderError>, tr: Transforms)
    : Result<seq<FileData>, BuilderError>
    requires i <= |xml.gresources|
    decreases |xml.gresources| - i
  {
    if i == |xml.gresources| then Ok(acc)
    else
      var next :- SectionFrom(acc, xml.dir, xml.gresources[i], 0, read, tr);
      ManifestFrom(next, xml, i + 1, read, tr)
  }

  /** Each file of a section, from file `j` on, as a key and its compress attribute. */
  function SectionEntries(g: GResource, j: nat): seq<(bytes, bool)>
    requires j <= |g.files|
  {
    seq(|g.files| - j, k requires 0 <= k < |g.files| - j => (XmlKey(g.prefix, g.files[j + k]), g.files[j + k].compressed))
  }

  /** Every file of the manifest from section `i` on, in document order. */
  function ManifestEntries(xml: XmlManifest, i: nat): seq<(bytes, bool)>
    requires i <= |xml.gresources|
    decreases |xml.gresources| - i
  {
    if i == |xml.gresources| then [] else SectionEntries(xml.gresources[i], 0) + ManifestEntries(xml, i + 1)
  }

  /** The files `acc` is followed by, one per entry, in order. */
  predicate PacksAfter(r: seq<FileData>, acc: seq<FileData>, es: seq<(bytes, bool)>)
  {
    |r| == |acc| + |es| && r[..|acc|] == acc
    && forall k :: 0 <= k < |es| ==> Packed(r[|acc| + k], es[k].0, es[k].1)
  }

  /** One file packed from each remaining entry of the section, after `acc`. */
  lemma {:induction false} SectionFromSpec(acc: seq<FileData>, dir: bytes, g: GResource, j: nat,
                                           read: (bytes, bytes) -> Result<bytes, BuilderError>, tr: Transforms)
    requires j <= |g.files|
    ensures var r := SectionFrom(acc, dir, g, j, read, tr);
      r.Ok? ==> PacksAfter(r.value, acc, SectionEntries(g, j))
    decreases |g.files| - j
  {
    var r := SectionFrom(acc, dir, g, j, read, tr);
    if j < |g.files| && r.Ok? {
      var f := g.files[j];
      var data := read(dir, f.filename).value;
      var fd := FileDataOf(XmlKey(g.prefix, f), data, f.compressed, f.preprocess, tr).value;
      var next := acc + [fd];
      assert r == SectionFrom(next, dir, g, j + 1, read, tr);
      SectionFromSpec(next, dir, g, j + 1, read, tr);
      FileDataSpec(XmlKey(g.prefix, f), data, f.compressed, f.preprocess, tr);
      var es := SectionEntries(g, j);
      var rest := SectionEntries(g, j + 1);
      var v := r.value;
      assert v[..|acc|] == acc by {
        assert v[..|next|] == next;
        assert v[..|acc|] == next[..|acc|];
      }
      forall k | 0 <= k < |es| ensures Packed(v[|acc| + k], es[k].0, es[k].1) {
        if k == 0 {
          assert v[|acc|] == next[|acc|];
        } else {
          assert es[k] == rest[k - 1];
          assert v[|acc| + k] == v[|next| + (k - 1)];
        }
      }
    }
  }

  /** One file packed from each remaining entry of the manifest, after `acc`. */
  lemma {:induction false} ManifestFromSpec(acc: seq<FileData>, xml: XmlManifest, i: nat,
                                            read: (bytes, bytes) -> Result<bytes, BuilderError>, tr: Transforms)
    requires i <= |xml.gresources|
    ensures var r := ManifestFrom(acc, xml, i, read, tr);
      r.Ok? ==> PacksAfter(r.value, acc, ManifestEntries(xml, i))
    decreases |xml.gresources| - i
  {
    var r := ManifestFrom(acc, xml, i, read, tr);
    if i < |xml.gresources| && r.Ok? {
      var g := xml.gresources[i];
      SectionFromSpec(acc, xml.dir, g, 0, read, tr);
      var next := SectionFrom(acc, xml.dir, g, 0, read, tr).value;
      ManifestFromSpec(next, xml, i + 1, read, tr);
      var e1 := SectionEntries(g, 0);
      var e2 := ManifestEntries(xml, i + 1);
      var v := r.value;
      assert v[..|acc|] == next[..|acc|] by {
        assert v[..|next|] == next;
      }
      var es: seq<(bytes, bool)> := e1 + e2;
      forall k | 0 <= k < |es| ensures Packed(v[|acc| + k], es[k].0, es[k].1) {
        if k < |e1| {
          assert v[|acc| + k] == next[|acc| + k];
        } else {
          assert v[|acc| + k] == v[|next| + (k - |e1|)];
        }
      }
    }
  }

  /**
   * `from_xml`: one file per `<file>` element, section by section in document order, not
   * sorted. Each key is `XmlKey` of its section's prefix and the element, and each file is
   * compressed exactly when its element says so.
   */
  lemma FromXmlSpec(xml: XmlManifest, read: (bytes, bytes) -> Result<bytes, BuilderError>, tr: Transforms)
    ensures var r := ManifestFrom([], xml, 0, read, tr); var es := ManifestEntries(xml, 0);
      r.Ok? ==> |r.value| == |es| && forall k :: 0 <= k < |es| ==> Packed(r.value[k], es[k].0, es[k].1)
  {
    var none: seq<FileData> := [];
    ManifestFromSpec(none, xml, 0, read, tr);
    var r := ManifestFrom(none, xml, 0, read, tr);
    var es := ManifestEntries(xml, 0);
    if r.Ok? {
      assert PacksAfter(r.value, none, es);
      assert |none| == 0;
      forall k | 0 <= k < |es| ensures Packed(r.value[k], es[k].0, es[k].1) {
        assert r.value[k] == r.value[|none| + k];
      }
    }
  }

  /** `from_xml`: for each section, for each file, read it from the manifest's directory and pack it. */
  method FromXml(xml: XmlManifest, read: (bytes, bytes) -> Result<bytes, BuilderError>, tr: Transforms)
    returns (r: Result<BundleBuilder, BuilderError>)
    ensures var spec := ManifestFrom([], xml, 0, read, tr);
      && (r.Ok? <==> spec.Ok?)
      && (r.Ok? ==> r.value.files == spec.value)
      && (r.Err? ==> r.error == spec.error)
  {
    var files: seq<FileData> := [];
    var i := 0;
    while i < |xml.gresources|
      invariant 0 <= i <= |xml.gresources|
      invariant ManifestFrom(files, xml, i, read, tr) == ManifestFrom([], xml, 0, read, tr)
    {
      var g := xml.gresources[i];
      var j := 0;
      while j < |g.files|
        invariant 0 <= j <= |g.files|
        invariant (var next :- SectionFrom(files, xml.dir, g, j, read, tr); ManifestFrom(next, xml, i + 1, read, tr))
                  == ManifestFrom([], xml, 0, read, tr)
      {
        var f := g.files[j];
        var key := WithSlash(g.prefix);
        key := key + (if f.alias.Some? then f.alias.value else f.filename);
        var data := read(xml.dir, f.filename);
        if data.Err? {
          return Err(data.error);
        }
        var fd := NewFileData(key, data.value, f.compressed, f.preprocess, tr);
        if fd.Err? {
          return Err(fd.error);
        }
        files := files + [fd.value];
        j := j + 1;
      }
      i := i + 1;
    }
    r := Ok(BundleBuilder(files));
  }

  /** An entry WalkDir yields: an error, a directory, or a file with its name and its path below the root. */
  datatype WalkEntry = WalkError | Directory | RegularFile(fileName: bytes, relativePath: bytes)

  /** The preprocessing `from_directory_with_extensions` picks from the relative path. */
  function OptionsFor(relativePath: bytes, stripBlanks: bool): PreprocessOptions
  {
    if stripBlanks && EndsWith(relativePath, Ascii(".json")) then JsonStripblanks()
    else if (stripBlanks && EndsWith(relativePath, Ascii(".xml")))
         || EndsWith(relativePath, Ascii(".ui")) || EndsWith(relativePath, Ascii(".svg"))
    then XmlStripblanks()
    else Empty()
  }

  /**
   * JSON stripping exactly for `.json` when blanks are stripped; otherwise XML stripping
   * for `.xml` when blanks are stripped, and for `.ui` and `.svg` always, even without
   * `strip_blanks`; never pixdata.
   */
  lemma OptionsForSpec(relativePath: bytes, stripBlanks: bool)
    ensures var o := OptionsFor(relativePath, stripBlanks);
      && (o.jsonStripblanks <==> stripBlanks && EndsWith(relativePath, Ascii(".json")))
      && (o.xmlStripblanks <==>
            !(stripBlanks && EndsWith(relativePath, Ascii(".json")))
            && ((stripBlanks && EndsWith(relativePath, Ascii(".xml")))
                || EndsWith(relativePath, Ascii(".ui")) || EndsWith(relativePath, Ascii(".svg"))))
      && !o.toPixdata
    ensures !stripBlanks && (EndsWith(relativePath, Ascii(".ui")) || EndsWith(relativePath, Ascii(".svg"))) ==>
      OptionsFor(relativePath, stripBlanks) == XmlStripblanks()
    ensures !stripBlanks && !EndsWith(relativePath, Ascii(".ui")) && !EndsWith(relativePath, Ascii(".svg")) ==>
      OptionsFor(relativePath, stripBlanks) == Empty()
  {
  }

  /** What one walk entry adds: nothing, one file, or an error. */
  function ScanEntry(prefix: bytes, e: WalkEntry, stripBlanks: bool, compressExtensions: seq<bytes>,
                     skippedExtensions: seq<bytes>, read: bytes -> Result<bytes, BuilderError>, tr: Transforms)
    : Result<Option<FileData>, BuilderError>
  {
    match e
    case WalkError => Err(Io)
    case Directory => Ok(None)
    case RegularFile(name, rel) =>
      if !Unicode.ValidUtf8(name) then Err(Utf8)
      else if EndsWithAny(name, skippedExtensions) then Ok(None)
      else if !Unicode.ValidUtf8(rel) then Err(Utf8)
      else
        var data :- read(rel);
        var fd :- FileDataOf(prefix + rel, data, EndsWithAny(name, compressExtensions), OptionsFor(rel, stripBlanks), tr);
        Ok(Some(fd))
  }

  /** The walk from entry `i` on, after the files `acc` found so far. */
  function ScanFrom(acc: seq<FileData>, prefix: bytes, walk: seq<WalkEntry>, i: nat, stripBlanks: bool,
                    compressExtensions: seq<bytes>, skippedExtensions: seq<bytes>,
                    read: bytes -> Result<bytes, BuilderError>, tr: Transforms)
    : Result<seq<FileData>, BuilderError>
    requires i <= |walk|
    decreases |walk| - i
  {
    if i == |walk| then Ok(acc)
    else
      var found :- ScanEntry(prefix, walk[i], stripBlanks, compressExtensions, skippedExtensions, read, tr);
      var next := if found.Some? then acc + [found.value] else acc;
      ScanFrom(next, prefix, walk, i + 1, stripBlanks, compressExtensions, skippedExtensions, read, tr)
  }

  /** What `from_directory_with_extensions` returns: the files of the walk, sorted by key. */
  function DirectoryFiles(prefix: bytes, walk: seq<WalkEntry>, stripBlanks: bool, compressExtensions: seq<bytes>,
                          skippedExtensions: seq<bytes>, read: bytes -> Result<bytes, BuilderError>, tr: Transforms)
    : Result<seq<FileData>, BuilderError>
  {
    var found :- ScanFrom([], WithSlash(prefix), walk, 0, stripBlanks, compressExtensions, skippedExtensions, read, tr);
    Ok(SortByKey(found))
  }

  /** A file the walk packs: a regular file whose name ends in no skipped suffix. */
  predicate Kept(e: WalkEntry, skippedExtensions: seq<bytes>)
  {
    e.RegularFile? && !EndsWithAny(e.fileName, skippedExtensions)
  }

  /** The file packed from walk entry `e`: keyed by prefix and path, compressed by suffix. */
  predicate PackedFrom(fd: FileData, e: WalkEntry, prefix: bytes, compressExtensions: seq<bytes>)
    requires e.RegularFile?
  {
    Packed(fd, prefix + e.relativePath, EndsWithAny(e.fileName, compressExtensions))
  }

  /** The file is packed from a kept walk entry at `lo` or later. */
  predicate FromKept(fd: FileData, walk: seq<WalkEntry>, lo: nat, prefix: bytes, compressExtensions: seq<bytes>,
                     skippedExtensions: seq<bytes>)
  {
    exists n :: lo <= n < |walk| && Kept(walk[n], skippedExtensions) && PackedFrom(fd, walk[n], prefix, compressExtensions)
  }

  /** Some file of `v` at `lo` or later is packed from the walk entry. */
  predicate YieldedIn(v: seq<FileData>, lo: nat, e: WalkEntry, prefix: bytes, compressExtensions: seq<bytes>)
    requires e.RegularFile?
  {
    exists k :: lo <= k < |v| && PackedFrom(v[k], e, prefix, compressExtensions)
  }

  /**
   * Every file the walk yields from entry `i` on comes from a kept entry and is packed
   * from it, and every kept entry yields one.
   */
  lemma {:induction false} ScanFromSpec(acc: seq<FileData>, prefix: bytes, walk: seq<WalkEntry>, i: nat,
                                        stripBlanks: bool, compressExtensions: seq<bytes>,
                                        skippedExtensions: seq<bytes>,
                                        read: bytes -> Result<bytes, BuilderError>, tr: Transforms)
    requires i <= |walk|
    ensures var r := ScanFrom(acc, prefix, walk, i, stripBlanks, compressExtensions, skippedExtensions, read, tr);
      r.Ok? ==>
        && |acc| <= |r.value| && r.value[..|acc|] == acc
        && (forall k :: |acc| <= k < |r.value| ==>
              FromKept(r.value[k], walk, i, prefix, compressExtensions, skippedExtensions))
        && (forall n :: i <= n < |walk| && Kept(walk[n], skippedExtensions) ==>
              YieldedIn(r.value, |acc|, walk[n], prefix, compressExtensions))
    decreases |walk| - i
  {
    var r := ScanFrom(acc, prefix, walk, i, stripBlanks, compressExtensions, skippedExtensions, read, tr);
    if i < |walk| && r.Ok? {
      var e := walk[i];
      var found := ScanEntry(prefix, e, stripBlanks, compressExtensions, skippedExtensions, read, tr).value;
      var next := if found.Some? then acc + [found.value] else acc;
      assert r == ScanFrom(next, prefix, walk, i + 1, stripBlanks, compressExtensions, skippedExtensions, read, tr);
      ScanFromSpec(next, prefix, walk, i + 1, stripBlanks, compressExtensions, skippedExtensions, read, tr);
      var v := r.value;
      assert v[..|acc|] == next[..|acc|] by {
        assert v[..|next|] == next;
      }
      ScanEntryPacks(prefix, e, stripBlanks, compressExtensions, skippedExtensions, read, tr);
      if found.Some? {
        assert v[|acc|] == next[|acc|];
      }
      forall k | |acc| <= k < |v|
        ensures FromKept(v[k], walk, i, prefix, compressExtensions, skippedExtensions)
      {
        if k < |next| {
          assert Kept(walk[i], skippedExtensions) && PackedFrom(v[k], walk[i], prefix, compressExtensions);
        } else {
          assert FromKept(v[k], walk, i + 1, prefix, compressExtensions, skippedExtensions);
        }
      }
      forall n | i <= n < |walk| && Kept(walk[n], skippedExtensions)
        ensures YieldedIn(v, |acc|, walk[n], prefix, compressExtensions)
      {
        if n == i {
          assert PackedFrom(v[|acc|], walk[n], prefix, compressExtensions);
        } else {
          assert YieldedIn(v, |next|, walk[n], prefix, compressExtensions);
        }
      }
    }
  }

  /** A kept entry yields one file, packed from it; any other entry yields none. */
  lemma ScanEntryPacks(prefix: bytes, e: WalkEntry, stripBlanks: bool, compressExtensions: seq<bytes>,
                       skippedExtensions: seq<bytes>, read: bytes -> Result<bytes, BuilderError>, tr: Transforms)
    ensures var r := ScanEntry(prefix, e, stripBlanks, compressExtensions, skippedExtensions, read, tr);
      r.Ok? ==>
        && (r.value.Some? <==> Kept(e, skippedExtensions))
        && (r.value.Some? ==> PackedFrom(r.value.value, e, prefix, compressExtensions))
  {
    var r := ScanEntry(prefix, e, stripBlanks, compressExtensions, skippedExtensions, read, tr);
    if r.Ok? && e.RegularFile? && Kept(e, skippedExtensions) {
      var data := read(e.relativePath).value;
      FileDataSpec(prefix + e.relativePath, data, EndsWithAny(e.fileName, compressExtensions),
                   OptionsFor(e.relativePath, stripBlanks), tr);
    }
  }

  /**
   * `from_directory_with_extensions`: the result is sorted by key and holds one file per
   * regular file whose name ends in no skipped suffix, keyed by the prefix (given a
   * trailing `/`) and the relative path, compressed exactly when the name ends in a
   * compress suffix; nothing else is in it. A walk error anywhere is an I/O error.
   */
  lemma DirectoryFilesSpec(prefix: bytes, walk: seq<WalkEntry>, stripBlanks: bool, compressExtensions: seq<bytes>,
                           skippedExtensions: seq<bytes>, read: bytes -> Result<bytes, BuilderError>, tr: Transforms)
    ensures var r := DirectoryFiles(prefix, walk, stripBlanks, compressExtensions, skippedExtensions, read, tr);
      r.Ok? ==>
        && SortedByKey(r.value)
        && (forall fd :: fd in r.value ==>
              FromKept(fd, walk, 0, WithSlash(prefix), compressExtensions, skippedExtensions))
        && (forall n :: 0 <= n < |walk| && Kept(walk[n], skippedExtensions) ==>
              YieldedIn(r.value, 0, walk[n], WithSlash(prefix), compressExtensions))
  {
    var s := ScanFrom([], WithSlash(prefix), walk, 0, stripBlanks, compressExtensions, skippedExtensions, read, tr);
    ScanFromSpec([], WithSlash(prefix), walk, 0, stripBlanks, compressExtensions, skippedExtensions, read, tr);
    if s.Ok? {
      SortByKeySpec(s.value);
      var sorted := SortByKey(s.value);
      SameMembers(s.value, sorted);
      forall fd | fd in sorted ensures FromKept(fd, walk, 0, WithSlash(prefix), compressExtensions, skippedExtensions) {
        var k :| 0 <= k < |s.value| && s.value[k] == fd;
      }
      forall n | 0 <= n < |walk| && Kept(walk[n], skippedExtensions)
        ensures YieldedIn(sorted, 0, walk[n], WithSlash(prefix), compressExtensions)
      {
        var k :| 0 <= k < |s.value| && PackedFrom(s.value[k], walk[n], WithSlash(prefix), compressExtensions);
        assert s.value[k] in sorted;
        var k2 :| 0 <= k2 < |sorted| && sorted[k2] == s.value[k];
      }
    }
  }

  /** A walk error anywhere makes the whole scan fail. */
  lemma WalkErrorFails(prefix: bytes, walk: seq<WalkEntry>, stripBlanks: bool, compressExtensions: seq<bytes>,
                       skippedExtensions: seq<bytes>, read: bytes -> Result<bytes, BuilderError>, tr: Transforms)
    requires WalkError in walk
    ensures DirectoryFiles(prefix, walk, stripBlanks, compressExtensions, skippedExtensions, read, tr).Err?
  {
    var n :| 0 <= n < |walk| && walk[n] == WalkError;
    ScanFails([], WithSlash(prefix), walk, 0, n, stripBlanks, compressExtensions, skippedExtensions, read, tr);
  }

  /** Sequences that hold the same files with the same counts have the same members. */
  lemma SameMembers(a: seq<FileData>, b: seq<FileData>)
    requires multiset(a) == multiset(b)
    ensures forall x :: x in a <==> x in b
  {
    forall x ensures x in a <==> x in b {
      assert x in a <==> x in multiset(a);
      assert x in b <==> x in multiset(b);
    }
  }

  /** A walk error at entry `n` stops the walk with an error. */
  lemma {:induction false} ScanFails(acc: seq<FileData>, prefix: bytes, walk: seq<WalkEntry>, i: nat, n: nat,
                                     stripBlanks: bool, compressExtensions: seq<bytes>,
                                     skippedExtensions: seq<bytes>,
                                     read: bytes -> Result<bytes, BuilderError>, tr: Transforms)
    requires i <= n < |walk| && walk[n] == WalkError
    ensures ScanFrom(acc, prefix, walk, i, stripBlanks, compressExtensions, skippedExtensions, read, tr).Err?
    decreases n - i
  {
    var found := ScanEntry(prefix, walk[i], stripBlanks, compressExtensions, skippedExtensions, read, tr);
    if i < n && found.Ok? {
      var next := if found.value.Some? then acc + [found.value.value] else acc;
      ScanFails(next, prefix, walk, i + 1, n, stripBlanks, compressExtensions, skippedExtensions, read, tr);
    }
  }

  /** With compression off (`from_directory(.., compress = false)`) no file is compressed. */
  lemma NoCompressionWhenOff(prefix: bytes, walk: seq<WalkEntry>, stripBlanks: bool,
                             read: bytes -> Result<bytes, BuilderError>, tr: Transforms)
    ensures var r := DirectoryFiles(prefix, walk, stripBlanks, [], SKIPPED_FILE_EXTENSIONS_DEFAULT, read, tr);
      r.Ok? ==> forall fd :: fd in r.value ==> fd.flags == 0
  {
    var r := DirectoryFiles(prefix, walk, stripBlanks, [], SKIPPED_FILE_EXTENSIONS_DEFAULT, read, tr);
    DirectoryFilesSpec(prefix, walk, stripBlanks, [], SKIPPED_FILE_EXTENSIONS_DEFAULT, read, tr);
    if r.Ok? {
      forall fd | fd in r.value ensures fd.flags == 0 {
        var n :| 0 <= n < |walk| && Kept(walk[n], SKIPPED_FILE_EXTENSIONS_DEFAULT)
                 && PackedFrom(fd, walk[n], WithSlash(prefix), []);
      }
    }
  }

  /** Whether the name ends in one of the suffixes, scanning them in order. */
  method MatchesAny(name: bytes, suffixes: seq<bytes>) returns (found: bool)
    ensures found == EndsWithAny(name, suffixes)
  {
    found := false;
    var j := 0;
    while j < |suffixes| && !found
      invariant 0 <= j <= |suffixes|
      invariant found <==> exists k :: 0 <= k < j && EndsWith(name, suffixes[k])
    {
      found := EndsWith(name, suffixes[j]);
      j := j + 1;
    }
  }

  /**
   * `from_directory_with_extensions`: walk the directory, skip names with a skipped suffix,
   * pack every other regular file, then sort the files by key.
   */
  method FromDirectoryWithExtensions(prefix: bytes, walk: seq<WalkEntry>, stripBlanks: bool,
                                     compressExtensions: seq<bytes>, skippedExtensions: seq<bytes>,
                                     read: bytes -> Result<bytes, BuilderError>, tr: Transforms)
    returns (r: Result<BundleBuilder, BuilderError>)
    ensures var spec := DirectoryFiles(prefix, walk, stripBlanks, compressExtensions, skippedExtensions, read, tr);
      && (r.Ok? <==> spec.Ok?)
      && (r.Ok? ==> r.value.files == spec.value)
      && (r.Err? ==> r.error == spec.error)
  {
    var keyPrefix := prefix;
    if !EndsWith(keyPrefix, [WriteBuilder.SLASH]) {
      keyPrefix := keyPrefix + [WriteBuilder.SLASH];
    } else {
      assert prefix[|prefix| - 1..] == [prefix[|prefix| - 1]];
    }
    var files: seq<FileData> := [];
    var i := 0;
    while i < |walk|
      invariant 0 <= i <= |walk| && keyPrefix == WithSlash(prefix)
      invariant ScanFrom(files, keyPrefix, walk, i, stripBlanks, compressExtensions, skippedExtensions, read, tr)
                == ScanFrom([], keyPrefix, walk, 0, stripBlanks, compressExtensions, skippedExtensions, read, tr)
    {
      match walk[i] {
        case WalkError =>
          return Err(Io);
        case Directory =>
        case RegularFile(name, rel) =>
          if !Unicode.ValidUtf8(name) {
            return Err(Utf8);
          }
          var skipped := MatchesAny(name, skippedExtensions);
          if !skipped {
            var compressThis := MatchesAny(name, compressExtensions);
            if !Unicode.ValidUtf8(rel) {
              return Err(Utf8);
            }
            var options := OptionsFor(rel, stripBlanks);
            var data := read(rel);
            if data.Err? {
              return Err(data.error);
            }
            var fd := NewFileData(keyPrefix + rel, data.value, compressThis, options, tr);
            if fd.Err? {
              return Err(fd.error);
            }
            files := files + [fd.value];
          }
      }
      i := i + 1;
    }
    r := Ok(BundleBuilder(SortByKey(files)));
  }

  /** `from_directory`: the default skip list, and the default compress list only when compressing. */
  method FromDirectory(prefix: bytes, walk: seq<WalkEntry>, stripBlanks: bool, compress: bool,
                       read: bytes -> Result<bytes, BuilderError>, tr: Transforms)
    returns (r: Result<BundleBuilder, BuilderError>)
    ensures var spec := DirectoryFiles(prefix, walk, stripBlanks,
                                       if compress then COMPRESS_EXTENSIONS_DEFAULT else [],
                                       SKIPPED_FILE_EXTENSIONS_DEFAULT, read, tr);
      && (r.Ok? <==> spec.Ok?)
      && (r.Ok? ==> r.value.files == spec.value)
      && (r.Err? ==> r.error == spec.error)
  {
    var compressExtensions := if compress then COMPRESS_EXTENSIONS_DEFAULT else [];
    r := FromDirectoryWithExtensions(prefix, walk, stripBlanks, compressExtensions,
                                     SKIPPED_FILE_EXTENSIONS_DEFAULT, read, tr);
  }

  /** The record stored for a file. */
  function DataOf(fd: FileData): Data
  {
    Data(fd.size, fd.flags, fd.data)
  }

  /** The table after inserting the files in order, stopping at the first error. */
  function InsertFiles(files: seq<FileData>, encode: Data -> bytes): WriteBuilder.Outcome
    decreases |files|
  {
    if files == [] then WriteBuilder.Outcome(map[], Ok(()))
    else
      var before := InsertFiles(files[..|files| - 1], encode);
      var fd := files[|files| - 1];
      if before.result.Err? then before
      else WriteBuilder.Insert(before.items, fd.key, WriteItem.Value(encode(DataOf(fd))), Some(WriteBuilder.SLASH))
  }

  /** The total length of the keys, one more per key. */
  function KeysSize(files: seq<FileData>): nat
    decreases |files|
  {
    if files == [] then 0 else KeysSize(files[..|files| - 1]) + |files[|files| - 1].key| + 1
  }

  /** The keys along a path grow in length from the first, so there are at most one more than the key is long. */
  lemma PathLength(key: bytes)
    ensures |WriteBuilder.Path(key, WriteBuilder.SLASH)| <= |key| + 1
  {
    var p := WriteBuilder.Path(key, WriteBuilder.SLASH);
    WriteBuilder.PathSpec(key, WriteBuilder.SLASH);
    PathGrowth(p, |p| - 1);
  }

  /** In a sequence of keys of strictly growing length, key `i` has length at least `i`. */
  lemma {:induction false} PathGrowth(p: seq<bytes>, i: nat)
    requires i < |p| && forall a, b :: 0 <= a < b < |p| ==> |p[a]| < |p[b]|
    ensures |p[i]| >= i
  {
    if i > 0 {
      PathGrowth(p, i - 1);
    }
  }

  /**
   * Inserting the files makes at most one table entry per key byte and one per key, and
   * every entry is a file's value or a path container, never a nested table.
   */
  lemma {:induction false} InsertFilesBound(files: seq<FileData>, encode: Data -> bytes)
    ensures var o := InsertFiles(files, encode);
      o.result.Ok? ==> |o.items.Keys| <= KeysSize(files) && forall k :: k in o.items ==> !o.items[k].TableBuilder?
    decreases |files|
  {
    if files != [] {
      var init := files[..|files| - 1];
      var before := InsertFiles(init, encode);
      InsertFilesBound(init, encode);
      if before.result.Ok? {
        var fd := files[|files| - 1];
        InsertStepBound(before.items, fd.key, WriteItem.Value(encode(DataOf(fd))));
      }
    }
  }

  /** One insertion adds at most one entry per key byte and one more, and only values and containers. */
  lemma InsertStepBound(items: WriteBuilder.Items, key: bytes, value: WriteItem.HashValue)
    requires forall k :: k in items ==> !items[k].TableBuilder?
    requires !value.TableBuilder?
    ensures var o := WriteBuilder.Insert(items, key, value, Some(WriteBuilder.SLASH));
      o.result.Ok? ==> |o.items.Keys| <= |items.Keys| + |key| + 1 && forall k :: k in o.items ==> !o.items[k].TableBuilder?
  {
    var p := WriteBuilder.Path(key, WriteBuilder.SLASH);
    var o := WriteBuilder.Insert(items, key, value, Some(WriteBuilder.SLASH));
    WriteBuilder.InsertSpec(items, key, value, WriteBuilder.SLASH);
    var kept := items.Keys + WriteIndexing.SetOf(p);
    assert o.items.Keys <= kept;
    WriteIndexing.SubsetSize(o.items.Keys, kept);
    WriteIndexing.SetOfSize(p);
    PathLength(key);
    if o.result.Ok? {
      forall k | k in o.items ensures !o.items[k].TableBuilder? {
        if k in p {
          var j :| 0 <= j < |p| && p[j] == k;
          if j < |p| - 1 {
            assert o.items[p[j]].Container?;
          }
        }
      }
    }
  }

  /**
   * `build`: insert each file's `(size, flags, data)` record under its key into a new
   * table builder, stopping at the first error, then write the file with that table at
   * its root. On success the result is the serialized file: the header points at the
   * table, and the table holds the inserted items. A failed insertion is that gvdb error;
   * the writer accepts every table it can write.
   */
  method Build(b: BundleBuilder, encode: Data -> bytes, host: Endian.Endian)
    returns (r: Result<bytes, BuilderError>, ghost items: WriteBuilder.Items,
             ghost chunks: seq<WriteLayout.Chunk>, ghost info: WriteLayout.TableInfo)
    requires KeysSize(b.files) < U32_LIMIT
    ensures var o := InsertFiles(b.files, encode);
      && (o.result.Err? ==> r == Err(Gvdb(o.result.error)))
      && (o.result.Ok? ==>
            && items == o.items
            && (r.Ok? ==>
                  && 1 < |chunks| && WriteLayout.TableWritten(chunks, 1, items, info)
                  && chunks[0].data == WriteFile.HeaderBytes(host == Endian.Big, chunks[1].pointer, host)
                  && r.value == WriteLayout.Emit(chunks).0)
            && (r.Err? ==> r == Err(Gvdb(WriteError.Consistency)))
            && (WriteLayout.Writable(WriteItem.TableBuilder(items, Some(WriteBuilder.SLASH))) ==> r.Ok?))
  {
    var writer := new WriteFile.FileWriter(host);
    var tableBuilder := new WriteBuilder.HashTableBuilder();
    var inserted := InsertAll(tableBuilder, b.files, encode);
    items := tableBuilder.items;
    if inserted.Err? {
      r := Err(Gvdb(inserted.error));
      chunks := writer.chunks;
      info := WriteLayout.TableInfo([], []);
    } else {
      BuildFits(b.files, encode);
      var written;
      written, info := WriteFile.WriteToVecWithTable(writer, tableBuilder, host);
      chunks := writer.chunks;
      if written.Err? {
        r := Err(Gvdb(written.error));
      } else {
        r := Ok(written.value);
      }
    }
  }

  /** The table the files make fits the writer: fewer than 2^32 items, no nested table. */
  lemma BuildFits(files: seq<FileData>, encode: Data -> bytes)
    requires KeysSize(files) < U32_LIMIT && InsertFiles(files, encode).result.Ok?
    ensures WriteLayout.Fits(WriteItem.TableBuilder(InsertFiles(files, encode).items, Some(WriteBuilder.SLASH)))
  {
    InsertFilesBound(files, encode);
  }

  /** `build`'s loop: insert each file's record under its key, stopping at the first error. */
  method InsertAll(tableBuilder: WriteBuilder.HashTableBuilder, files: seq<FileData>, encode: Data -> bytes)
    returns (r: Result<(), WriteError.Error>)
    requires tableBuilder.items == map[] && tableBuilder.pathSeparator == Some(WriteBuilder.SLASH)
    modifies tableBuilder
    ensures tableBuilder.pathSeparator == Some(WriteBuilder.SLASH)
    ensures WriteBuilder.Outcome(tableBuilder.items, r) == InsertFiles(files, encode)
  {
    var i := 0;
    while i < |files|
      invariant 0 <= i <= |files|
      invariant tableBuilder.pathSeparator == Some(WriteBuilder.SLASH)
      invariant InsertFiles(files[..i], encode) == WriteBuilder.Outcome(tableBuilder.items, Ok(()))
    {
      var fd := files[i];
      var data := Data(fd.size, fd.flags, fd.data);
      r := tableBuilder.InsertValue(fd.key, encode(data));
      assert files[..i + 1][..i] == files[..i];
      if r.Err? {
        InsertFilesFails(files, i + 1, encode);
        return;
      }
      i := i + 1;
    }
    assert files[..i] == files;
    r := Ok(());
  }

  /** Once an insertion fails, the later files do not change the outcome. */
  lemma {:induction false} InsertFilesFails(files: seq<FileData>, n: nat, encode: Data -> bytes)
    requires n <= |files| && InsertFiles(files[..n], encode).result.Err?
    ensures InsertFiles(files, encode) == InsertFiles(files[..n], encode)
    decreases |files| - n
  {
    if n < |files| {
      assert files[..n + 1][..n] == files[..n];
      InsertFilesFails(files, n + 1, encode);
    } else {
      assert files[..n] == files;
    }
  }

  /**
   * The entry shape: after inserting the files, each file whose key no later file reuses
   * is stored under its key as the value of its `(size, flags, data)` record.
   */
  lemma {:induction false} InsertFilesStores(files: seq<FileData>, encode: Data -> bytes, n: nat)
    requires n < |files| && InsertFiles(files, encode).result.Ok?
    requires forall m :: n < m < |files| ==> files[m].key != files[n].key
    ensures var o := InsertFiles(files, encode);
      files[n].key in o.items && o.items[files[n].key] == WriteItem.Value(encode(DataOf(files[n])))
    decreases |files|
  {
    var init := files[..|files| - 1];
    var before := InsertFiles(init, encode);
    var fd := files[|files| - 1];
    var v := WriteItem.Value(encode(DataOf(fd)));
    WriteBuilder.InsertSpec(before.items, fd.key, v, WriteBuilder.SLASH);
    if n < |files| - 1 {
      InsertFilesStores(init, encode, n);
      var k := files[n].key;
      var p := WriteBuilder.Path(fd.key, WriteBuilder.SLASH);
      forall j | 0 <= j < |p| ensures p[j] != k {
        if j < |p| - 1 {
          assert !(p[j] in before.items && !before.items[p[j]].Container?);
        }
      }
    }
  }
}
