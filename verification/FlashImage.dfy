/**
 The file-system image that flash_pack.py writes: a directory of 32-byte entries, a
 zero entry, the files' contents one after another, padding, and in front of it all a
 header with the checksum.

 A file name is a byte string as the file system hands it out: not empty and without
 a zero byte. `struct.pack('ii', …)` is taken as on the hosts the tool runs on, two
 32-bit little-endian numbers, and raises an exception when a number does not fit.
 */
module FlashImage {
  import opened Bytes
  import opened Octets
  import Crc32

  const MAX_NAME_LEN: nat := 23
  const ENTRY_LEN: nat := 32
  const MAGIC: seq<octet> := [0x88, 0x88, 0x88, 0x88, 0x63, 0x6F, 0x7A, 0x79]
  const VERSION: seq<octet> := [0x30, 0x31, 0x30, 0x30]

  /** What the directory listing names: a file with its contents, or a directory. */
  datatype Path = Path(name: seq<octet>, isDir: bool, data: seq<octet>) {
    predicate Named() {
      name != [] && 0 !in name
    }
  }

  /** A row of the file table: name, contents behind the path, offset and length. */
  datatype Row = Row(name: seq<octet>, data: seq<octet>, offset: nat, length: nat)

  datatype Outcome = Packed(bytes: seq<octet>) | StructError

  // ---- What is laid out where

  /** The files of a listing, in order. */
  function Files(paths: seq<Path>): seq<Path> {
    if paths == [] then []
    else if paths[0].isDir then Files(paths[1..])
    else [paths[0]] + Files(paths[1..])
  }

  predicate NamesFit(files: seq<Path>) {
    forall f <- files :: |f.name| < MAX_NAME_LEN
  }

  function NewRow(f: Path): Row {
    Row(f.name, f.data, 0, 0)
  }

  /** The table as init_file_table leaves it. */
  function TableOf(files: seq<Path>): seq<Row> {
    seq(|files|, i requires 0 <= i < |files| => NewRow(files[i]))
  }

  /** The contents of the rows, one after another. */
  function Contents(rows: seq<Row>): seq<octet> {
    if rows == [] then [] else Contents(rows[..|rows| - 1]) + rows[|rows| - 1].data
  }

  /** Where the contents of row `i` begin. */
  function Offset(rows: seq<Row>, i: nat): nat
    requires i <= |rows|
  {
    (|rows| + 1) * ENTRY_LEN + |Contents(rows[..i])|
  }

  /** The table with its offsets and lengths filled in. */
  function Laid(rows: seq<Row>): seq<Row> {
    seq(|rows|, i requires 0 <= i < |rows| => rows[i].(offset := Offset(rows, i), length := |rows[i].data|))
  }

  function I32(n: nat): (s: seq<octet>)
    requires n < TWO_31
    ensures |s| == 4
  {
    [Octet(n % 0x100), Octet(n / 0x100 % 0x100), Octet(n / 0x1_0000 % 0x100), Octet(n / 0x100_0000)]
  }

  function ReadI32(s: seq<octet>, at: nat): nat
    requires at + 4 <= |s|
  {
    Value(s[at]) + 0x100 * Value(s[at + 1]) + 0x1_0000 * Value(s[at + 2]) + 0x100_0000 * Value(s[at + 3])
  }

  predicate Fits(r: Row) {
    |r.name| < MAX_NAME_LEN && r.offset < TWO_31 && r.length < TWO_31
  }

  predicate AllFit(rows: seq<Row>) {
    forall i :: 0 <= i < |rows| ==> Fits(rows[i])
  }

  function EntryBytes(r: Row): (s: seq<octet>)
    requires Fits(r)
    ensures |s| == ENTRY_LEN
  {
    r.name + Repeat(0, MAX_NAME_LEN + 1 - |r.name|) + I32(r.offset) + I32(r.length)
  }

  function Directory(rows: seq<Row>): (s: seq<octet>)
    requires AllFit(rows)
    ensures |s| == ENTRY_LEN * |rows|
  {
    if rows == [] then []
    else Directory(rows[..|rows| - 1]) + EntryBytes(rows[|rows| - 1])
  }

  function Padding(n: nat): seq<octet> {
    if n % 4 > 0 then Repeat(0xFF, 4 - n % 4) else []
  }

  /** The packed image of a table. */
  function Image(rows: seq<Row>): seq<octet>
    requires AllFit(Laid(rows))
  {
    var front := Directory(Laid(rows)) + Repeat(0, ENTRY_LEN);
    front + (Contents(rows) + Padding(|front + Contents(rows)|))
  }

  // ---- The table object

  class FileTable {
    var rows: seq<Row>

    constructor ()
      ensures rows == []
    {
      rows := [];
    }

    /** init_file_table: directories are skipped, and a name of 23 bytes or more makes it give up. */
    method Init(paths: seq<Path>) returns (ok: bool)
      modifies this
      ensures ok <==> NamesFit(Files(paths))
      ensures ok ==> rows == TableOf(Files(paths))
    {
      hide Files, TableOf, NamesFit, NewRow;
      rows := [];
      assert paths[0..] == paths;
      assert rows + TableOf(Files(paths)) == TableOf(Files(paths));
      for k := 0 to |paths|
        invariant TableOf(Files(paths)) == rows + TableOf(Files(paths[k..]))
        invariant NamesFit(Files(paths)) <==> NamesFit(Files(paths[k..]))
      {
        var path := paths[k];
        FilesFrom(paths, k);
        if path.isDir {
          continue;
        }
        if |path.name| >= MAX_NAME_LEN {
          return false;
        }
        ghost var rest := TableOf(Files(paths[k + 1..]));
        assert rows + ([NewRow(path)] + rest) == (rows + [NewRow(path)]) + rest;
        rows := rows + [NewRow(path)];
      }
      NoFiles(paths);
      return true;
    }

    /** pack_files, on a table as init_file_table leaves it. An offset is added to what the row
        holds, so the rows must come with zeros. */
    method Pack() returns (r: Outcome)
      requires forall i :: 0 <= i < |rows| ==> rows[i].offset == 0 && |rows[i].name| < MAX_NAME_LEN
      modifies this
      ensures r.Packed? <==> AllFit(Laid(old(rows)))
      ensures r.Packed? ==> rows == Laid(old(rows)) && r.bytes == Image(old(rows))
    {
      hide Directory, Contents, EntryBytes, I32;
      ghost var was := rows;
      var n := |rows|;
      var summary, buffer: seq<octet> := [], [];
      var offset := (n + 1) * 32;
      Nothing(was);
      for i := 0 to n
        invariant |rows| == n == |was|
        invariant forall k :: 0 <= k < i ==> rows[k] == Laid(was)[k]
        invariant forall k :: i <= k < n ==> rows[k] == was[k]
        invariant buffer == Contents(was[..i])
        invariant AllFit(Laid(was)[..i]) && summary == Directory(Laid(was)[..i])
      {
        var data := rows[i].data;
        OneMore(was, i);
        if i > 0 {
          OneMore(was, i - 1);
          rows := rows[i := rows[i].(offset := rows[i].offset + (rows[i - 1].offset + rows[i - 1].length))];
        } else {
          rows := rows[i := rows[i].(offset := offset)];
        }
        rows := rows[i := rows[i].(length := |data|)];
        buffer := buffer + data;
        assert rows[i] == Laid(was)[i];
        if rows[i].offset >= TWO_31 || rows[i].length >= TWO_31 {
          assert !Fits(Laid(was)[i]);
          return StructError;
        }
        assert Laid(was)[..i + 1] == Laid(was)[..i] + [rows[i]];
        OneEntry(Laid(was)[..i], rows[i]);
        EntryIs(rows[i]);
        summary := summary + (rows[i].name + Repeat(0, MAX_NAME_LEN + 1 - |rows[i].name|)
                              + I32(rows[i].offset) + I32(rows[i].length));
      }
      assert was[..n] == was && Laid(was)[..n] == Laid(was) && rows == Laid(was);
      summary := summary + Repeat(0, 32);
      var pad := |summary + buffer| % 4;
      if pad > 0 {
        buffer := buffer + Repeat(0xFF, 4 - pad);
      } else {
        assert buffer + [] == buffer;
      }
      return Packed(summary + buffer);
    }
  }

  lemma FilesFrom(paths: seq<Path>, k: nat)
    requires k < |paths|
    ensures var here, next := Files(paths[k..]), Files(paths[k + 1..]);
            if paths[k].isDir then here == next
            else && TableOf(here) == [NewRow(paths[k])] + TableOf(next)
                 && (NamesFit(here) <==> |paths[k].name| < MAX_NAME_LEN && NamesFit(next))
  {
  }

  lemma NoFiles(paths: seq<Path>)
    ensures TableOf(Files(paths[|paths|..])) == [] && NamesFit(Files(paths[|paths|..]))
  {
  }

  lemma Nothing(rows: seq<Row>)
    ensures Contents(rows[..0]) == [] && AllFit(Laid(rows)[..0]) && Directory(Laid(rows)[..0]) == []
  {
  }

  /** The next row's contents begin where this one's end. */
  lemma OneMore(rows: seq<Row>, i: nat)
    requires i < |rows|
    ensures Contents(rows[..i + 1]) == Contents(rows[..i]) + rows[i].data
    ensures Offset(rows, i + 1) == Offset(rows, i) + |rows[i].data|
    ensures Offset(rows, 0) == (|rows| + 1) * ENTRY_LEN
  {
    assert rows[..i + 1][..i] == rows[..i];
  }

  lemma OneEntry(rows: seq<Row>, r: Row)
    requires AllFit(rows) && Fits(r)
    ensures AllFit(rows + [r]) && Directory(rows + [r]) == Directory(rows) + EntryBytes(r)
  {
  }

  lemma EntryIs(r: Row)
    requires Fits(r)
    ensures EntryBytes(r)
         == r.name + Repeat(0, MAX_NAME_LEN + 1 - |r.name|) + I32(r.offset) + I32(r.length)
  {
  }

  // ---- Reading an image

  /** What a reader learns from an entry. */
  datatype Entry = Entry(name: seq<octet>, offset: nat, length: nat)

  /** A zero-terminated name. */
  function NameAt(s: seq<octet>): seq<octet> {
    if s == [] || s[0] == 0 then [] else [s[0]] + NameAt(s[1..])
  }

  function ReadEntry(image: seq<octet>, at: nat): Entry
    requires at + ENTRY_LEN <= |image|
  {
    Entry(NameAt(image[at..at + 24]), ReadI32(image, at + 24), ReadI32(image, at + 28))
  }

  /** Walking the directory from `at` up to the zero entry. */
  function Walk(image: seq<octet>, at: nat): seq<Entry>
    decreases |image| - at
  {
    if at + ENTRY_LEN > |image| || image[at..at + ENTRY_LEN] == Repeat(0, ENTRY_LEN) then []
    else [ReadEntry(image, at)] + Walk(image, at + ENTRY_LEN)
  }

  function EntryOf(r: Row): Entry {
    Entry(r.name, r.offset, r.length)
  }

  lemma ReadBackI32(s: seq<octet>, at: nat, n: nat)
    requires n < TWO_31 && at + 4 <= |s| && s[at..at + 4] == I32(n)
    ensures ReadI32(s, at) == n
  {
    hide Octet, Value;
    var t := I32(n);
    assert s[at] == t[0] && s[at + 1] == t[1] && s[at + 2] == t[2] && s[at + 3] == t[3];
    OctetValue(n % 0x100);
    OctetValue(n / 0x100 % 0x100);
    OctetValue(n / 0x1_0000 % 0x100);
    OctetValue(n / 0x100_0000);
    FourDigits(n);
  }

  lemma FourDigits(n: nat)
    ensures n == n % 0x100 + 0x100 * (n / 0x100 % 0x100) + 0x1_0000 * (n / 0x1_0000 % 0x100)
                 + 0x100_0000 * (n / 0x100_0000)
  {
    var a, b, c := n / 0x100, n / 0x1_0000, n / 0x100_0000;
    assert n == a * 0x100 + n % 0x100 && a == b * 0x100 + a % 0x100 && b == c * 0x100 + b % 0x100;
  }

  lemma {:induction false} ReadBackName(name: seq<octet>, tail: seq<octet>)
    requires 0 !in name && tail != [] && tail[0] == 0
    ensures NameAt(name + tail) == name
  {
    if name == [] {
      assert name + tail == tail;
    } else {
      assert (name + tail)[1..] == name[1..] + tail;
      ReadBackName(name[1..], tail);
    }
  }

  /** An entry in an image reads back, and is not taken for the zero entry. */
  lemma EntryReadsBack(image: seq<octet>, at: nat, r: Row)
    requires Fits(r) && r.name != [] && 0 !in r.name
    requires at + ENTRY_LEN <= |image| && image[at..at + ENTRY_LEN] == EntryBytes(r)
    ensures ReadEntry(image, at) == EntryOf(r)
    ensures image[at..at + ENTRY_LEN] != Repeat(0, ENTRY_LEN)
  {
    hide I32, ReadI32;
    var e, zeros := EntryBytes(r), Repeat(0, MAX_NAME_LEN + 1 - |r.name|);
    assert e[0] == r.name[0] != 0;
    assert image[at..at + 24] == e[..24] == r.name + zeros;
    ReadBackName(r.name, zeros);
    assert image[at + 24..at + 28] == e[24..28] == I32(r.offset);
    assert image[at + 28..at + 32] == e[28..32] == I32(r.length);
    ReadBackI32(image, at + 24, r.offset);
    ReadBackI32(image, at + 28, r.length);
  }

  lemma {:induction false} DirectoryAt(rows: seq<Row>, i: nat)
    requires AllFit(rows) && i < |rows|
    ensures Directory(rows)[ENTRY_LEN * i..ENTRY_LEN * i + ENTRY_LEN] == EntryBytes(rows[i])
    decreases |rows|
  {
    hide EntryBytes;
    var n := |rows| - 1;
    var front := Directory(rows[..n]);
    assert Directory(rows) == front + EntryBytes(rows[n]);
    if i < n {
      DirectoryAt(rows[..n], i);
      assert Directory(rows)[ENTRY_LEN * i..ENTRY_LEN * i + ENTRY_LEN]
          == front[ENTRY_LEN * i..ENTRY_LEN * i + ENTRY_LEN];
    }
  }

  predicate AllNamed(rows: seq<Row>) {
    forall i :: 0 <= i < |rows| ==> rows[i].name != [] && 0 !in rows[i].name
  }

  function EntriesOf(rows: seq<Row>): seq<Entry> {
    seq(|rows|, i requires 0 <= i < |rows| => EntryOf(rows[i]))
  }

  lemma SliceOfPrefix(image: seq<octet>, n: nat, at: nat)
    requires at + ENTRY_LEN <= n <= |image|
    ensures image[at..at + ENTRY_LEN] == image[..n][at..at + ENTRY_LEN]
  {
  }

  lemma {:induction false} WalkFrom(image: seq<octet>, rows: seq<Row>, i: nat)
    requires AllFit(rows) && AllNamed(rows) && i <= |rows|
    requires |image| >= ENTRY_LEN * (|rows| + 1)
    requires image[..ENTRY_LEN * |rows|] == Directory(rows)
    requires image[ENTRY_LEN * |rows|..ENTRY_LEN * |rows| + ENTRY_LEN] == Repeat(0, ENTRY_LEN)
    ensures Walk(image, ENTRY_LEN * i) == EntriesOf(rows)[i..]
    decreases |rows| - i
  {
    hide Directory, EntryBytes, ReadEntry;
    if i < |rows| {
      var at := ENTRY_LEN * i;
      DirectoryAt(rows, i);
      SliceOfPrefix(image, ENTRY_LEN * |rows|, at);
      EntryReadsBack(image, at, rows[i]);
      WalkFrom(image, rows, i + 1);
      assert EntriesOf(rows)[i..] == [EntryOf(rows[i])] + EntriesOf(rows)[i + 1..];
    }
  }

  lemma SliceBehind(front: seq<octet>, c: seq<octet>, tail: seq<octet>, at: nat, n: nat)
    requires at + n <= |c|
    ensures (front + (c + tail))[|front| + at..|front| + at + n] == c[at..at + n]
  {
  }

  /** The packed image of every accepted table: its length is a multiple of 4; walking its
      directory gives back every name with its offset and length, in order; at each recorded place
      lie exactly that file's bytes; and the files lie back to back, the first one right behind the
      directory. */
  lemma ImageReadsBack(rows: seq<Row>)
    requires AllFit(Laid(rows)) && AllNamed(rows)
    ensures var image := Image(rows);
            && |image| % 4 == 0
            && Walk(image, 0) == EntriesOf(Laid(rows))
            && (forall i :: 0 <= i < |rows| ==>
                  var r := Laid(rows)[i];
                  r.offset + r.length <= |image| && image[r.offset..r.offset + r.length] == rows[i].data)
            && (rows != [] ==> Laid(rows)[0].offset == ENTRY_LEN * (|rows| + 1))
            && (forall i :: 0 < i < |rows| ==>
                  Laid(rows)[i].offset == Laid(rows)[i - 1].offset + Laid(rows)[i - 1].length)
  {
    hide Directory, Contents, EntryBytes, Walk, Padding;
    var image, laid := Image(rows), Laid(rows);
    var front := Directory(laid) + Repeat(0, ENTRY_LEN);
    PaddedLength(|front + Contents(rows)|);
    assert image[..ENTRY_LEN * |rows|] == Directory(laid);
    assert image[ENTRY_LEN * |rows|..ENTRY_LEN * |rows| + ENTRY_LEN] == Repeat(0, ENTRY_LEN);
    WalkFrom(image, laid, 0);
    assert EntriesOf(laid)[0..] == EntriesOf(laid);
    forall i | 0 <= i < |rows|
      ensures laid[i].offset + laid[i].length <= |image|
              && image[laid[i].offset..laid[i].offset + laid[i].length] == rows[i].data
    {
      ContentsAt(rows, i);
      var at, c := |Contents(rows[..i])|, Contents(rows);
      SliceBehind(front, c, Padding(|front + c|), at, |rows[i].data|);
    }
    forall i | 0 < i < |rows| ensures laid[i].offset == laid[i - 1].offset + laid[i - 1].length {
      OneMore(rows, i - 1);
    }
    if rows != [] {
      OneMore(rows, 0);
    }
  }

  lemma PaddedLength(n: nat)
    ensures (n + |Padding(n)|) % 4 == 0
  {
  }

  lemma {:induction false} ContentsAt(rows: seq<Row>, i: nat)
    requires i < |rows|
    ensures var at := |Contents(rows[..i])|;
            at + |rows[i].data| <= |Contents(rows)| && Contents(rows)[at..at + |rows[i].data|] == rows[i].data
    decreases |rows|
  {
    var n := |rows| - 1;
    if i < n {
      ContentsAt(rows[..n], i);
      assert rows[..n][..i] == rows[..i];
    }
  }

  /** Which tables pack_files accepts, in sizes: every file starts and measures below 2^31. The
      largest start is that of the last row. */
  lemma AcceptedSizes(rows: seq<Row>)
    ensures AllFit(Laid(rows)) <==>
            (forall i :: 0 <= i < |rows| ==> |rows[i].name| < MAX_NAME_LEN && |rows[i].data| < TWO_31)
            && (rows != [] ==> Offset(rows, |rows| - 1) < TWO_31)
  {
    hide Offset;
    var laid := Laid(rows);
    if rows != [] {
      forall i | 0 <= i < |rows| ensures Offset(rows, i) <= Offset(rows, |rows| - 1) {
        OffsetsGrow(rows, i, |rows| - 1);
      }
      forall i | 0 <= i < |rows|
        ensures laid[i].offset == Offset(rows, i) && laid[i].length == |rows[i].data| && laid[i].name == rows[i].name
      {
      }
      if AllFit(laid) {
        forall i | 0 <= i < |rows| ensures |rows[i].name| < MAX_NAME_LEN && |rows[i].data| < TWO_31 {
          assert Fits(laid[i]);
        }
        assert Fits(laid[|rows| - 1]);
      }
    }
  }

  lemma {:induction false} OffsetsGrow(rows: seq<Row>, i: nat, j: nat)
    requires i <= j <= |rows|
    ensures Offset(rows, i) <= Offset(rows, j)
    decreases j - i
  {
    hide Offset;
    if i < j {
      OffsetsGrow(rows, i, j - 1);
      OneMore(rows, j - 1);
    }
  }

  /** Nothing is lost in an image: equal images come from the same names and contents. */
  lemma ImageInjective(a: seq<Row>, b: seq<Row>)
    requires AllFit(Laid(a)) && AllNamed(a) && AllFit(Laid(b)) && AllNamed(b)
    requires Image(a) == Image(b)
    ensures |a| == |b| && forall i :: 0 <= i < |a| ==> a[i].name == b[i].name && a[i].data == b[i].data
  {
    hide Image, Walk, Offset, AllFit;
    ImageReadsBack(a);
    ImageReadsBack(b);
    assert |EntriesOf(Laid(a))| == |a| && |EntriesOf(Laid(b))| == |b|;
    forall i | 0 <= i < |a| ensures a[i].name == b[i].name && a[i].data == b[i].data {
      var x, y := Laid(a)[i], Laid(b)[i];
      assert EntriesOf(Laid(a))[i] == EntryOf(x) && EntriesOf(Laid(b))[i] == EntryOf(y);
      assert x.offset == y.offset && x.length == y.length;
    }
  }

  // ---- The header

  function Checksum(body: seq<octet>): bv32 {
    Crc32.Serial(0, Crc32.Bits(body))
  }

  /** `struct.pack('I', …)`. */
  function Word(c: bv32): (s: seq<octet>)
    ensures |s| == 4
  {
    Crc32.LittleEndian(c)
  }

  function Head(body: seq<octet>, backendVersion: bv32): (s: seq<octet>)
    ensures |s| == 24
  {
    MAGIC + Word(Checksum(body)) + Word(0) + Word(backendVersion) + VERSION
  }

  /** The file as main writes it around the packed bytes. */
  method WriteImage(body: seq<octet>, backendVersion: bv32) returns (file: seq<octet>)
    ensures file == Head(body, backendVersion) + body
  {
    hide Crc32.Serial, Crc32.Bits, Word;
    var crc := Crc32.Crc(body);
    file := MAGIC;
    file := file + Word(crc);
    file := file + Word(0);
    file := file + Word(backendVersion);
    file := file + VERSION;
    file := file + body;
  }

  /** A reader's check of the header against the packed bytes. */
  predicate Accepts(file: seq<octet>) {
    |file| >= 24 && file[..8] == MAGIC && file[8..12] == Word(Checksum(file[24..]))
  }

  lemma WordInjective(a: bv32, b: bv32)
    requires Word(a) == Word(b)
    ensures a == b
  {
  }

  lemma HeadAndBody(body: seq<octet>, version: bv32, other: seq<octet>)
    ensures var file := Head(body, version) + other;
            && file[..8] == MAGIC && file[8..12] == Word(Checksum(body)) && file[24..] == other
  {
  }

  /** Where the pieces of the header lie: eight bytes of magic, the checksum of the packed bytes, a zero
      word, the back end's version and four bytes of format version. */
  lemma HeadLayout(body: seq<octet>, version: bv32)
    ensures var file := Head(body, version) + body;
            && |file| == 24 + |body|
            && file[..8] == [0x88, 0x88, 0x88, 0x88, 0x63, 0x6F, 0x7A, 0x79]
            && file[8..12] == Word(Crc32.Serial(0, Crc32.Bits(body)))
            && file[12..16] == [0, 0, 0, 0] && file[16..20] == Word(version)
            && file[20..24] == [0x30, 0x31, 0x30, 0x30] && file[24..] == body
  {
    WordDigits(0);
    hide Crc32.Serial, Crc32.Bits, Word;
    assert Word(0) == [0, 0, 0, 0];
  }

  /** A word is written with its least significant byte first. */
  lemma WordDigits(c: bv32)
    ensures Word(c) == [(c & 0xFF) as octet, ((c >> 8) & 0xFF) as octet,
                        ((c >> 16) & 0xFF) as octet, ((c >> 24) & 0xFF) as octet]
  {
  }

  /** Behind the last file the image is filled up to a multiple of four with bytes 0xFF. */
  lemma ImageTail(rows: seq<Row>)
    requires AllFit(Laid(rows))
    ensures var image, end := Image(rows), Offset(rows, |rows|);
            end <= |image| < end + 4 && forall k :: end <= k < |image| ==> image[k] == 0xFF
  {
    hide Directory, Contents;
    assert rows[..|rows|] == rows;
  }

  /** The written file passes the check, and stops passing it after any change of its packed bytes
      that stays inside four consecutive ones. */
  lemma HeaderDetects(body: seq<octet>, damaged: seq<octet>, version: bv32, at: nat)
    requires |body| == |damaged| && body != damaged && at <= |body|
    requires forall k :: 0 <= k < |body| && (k < at || k >= at + 4) ==> body[k] == damaged[k]
    ensures Accepts(Head(body, version) + body) && !Accepts(Head(body, version) + damaged)
  {
    HeadAndBody(body, version, body);
    HeadAndBody(body, version, damaged);
    Crc32.FourByteWindow(body, damaged, at);
    hide Head, Word, Crc32.Serial, Crc32.Bits;
    if Accepts(Head(body, version) + damaged) {
      WordInjective(Checksum(body), Checksum(damaged));
    }
  }

  // ---- From a listing to the file

  datatype Built = NameTooLong | TooLarge | Written(file: seq<octet>)

  /** Reading `image` through its directory yields `files`: the same names in the same order, each
      with its contents at the place the entry names. */
  predicate Unpacks(image: seq<octet>, files: seq<Path>) {
    var es := Walk(image, 0);
    && |es| == |files|
    && forall i :: 0 <= i < |es| ==>
         && es[i].name == files[i].name
         && es[i].offset + es[i].length <= |image|
         && image[es[i].offset..es[i].offset + es[i].length] == files[i].data
  }

  /** What main does with a directory listing once the files are in place. */
  method BuildImage(paths: seq<Path>, backendVersion: bv32) returns (r: Built)
    requires forall p <- paths :: p.Named()
    ensures r.NameTooLong? <==> !NamesFit(Files(paths))
    ensures r.TooLarge? <==> NamesFit(Files(paths)) && !AllFit(Laid(TableOf(Files(paths))))
    ensures r.Written? ==> Accepts(r.file) && Unpacks(r.file[24..], Files(paths))
  {
    hide Files, Image, Walk, Laid, Checksum, Head, Word;
    var table := new FileTable();
    var ok := table.Init(paths);
    if !ok {
      return NameTooLong;
    }
    ghost var rows := table.rows;
    var packed := table.Pack();
    if packed.StructError? {
      return TooLarge;
    }
    FilesNamed(paths);
    var file := WriteImage(packed.bytes, backendVersion);
    HeadAndBody(packed.bytes, backendVersion, packed.bytes);
    ImageReadsBack(rows);
    ImageUnpacks(rows, Files(paths));
    return Written(file);
  }

  lemma ImageUnpacks(rows: seq<Row>, files: seq<Path>)
    requires AllFit(Laid(rows)) && AllNamed(rows) && |rows| == |files|
    requires forall i :: 0 <= i < |rows| ==> rows[i] == NewRow(files[i])
    ensures Unpacks(Image(rows), files)
  {
    hide Image, Walk, Offset;
    ImageReadsBack(rows);
  }

  lemma {:induction false} FilesNamed(paths: seq<Path>)
    requires forall p <- paths :: p.Named()
    ensures forall i :: 0 <= i < |Files(paths)| ==> Files(paths)[i].Named()
  {
    if paths != [] {
      FilesNamed(paths[1..]);
    }
  }
}
