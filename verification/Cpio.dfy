/**
 * The initramfs writer of mk/gen_assets.py and a reader for its format, the "new ASCII"
 * archive of cpio(5).
 */
module Cpio {

  import opened Wrappers

  type Byte = b: int | 0 <= b < 256

  datatype File = File(name: seq<Byte>, data: seq<Byte>)

  const HEX_LIMIT := 0x1_0000_0000

  /** "070701" */
  const MAGIC: seq<Byte> := [48, 55, 48, 55, 48, 49]

  /** "TRAILER!!!" */
  const TRAILER: seq<Byte> := [84, 82, 65, 73, 76, 69, 82, 33, 33, 33]

  function Ascii(text: string): seq<Byte>
    requires forall i :: 0 <= i < |text| ==> text[i] as int < 128
  {
    seq(|text|, i requires 0 <= i < |text| => text[i] as int)
  }

  lemma Constants()
    ensures MAGIC == Ascii("070701") && TRAILER == Ascii("TRAILER!!!")
  {
  }

  /** Hexadecimal digits are written in lower case. */
  lemma HexDigitIs(d: nat)
    requires d < 16
    ensures HexDigit(d) as int == "0123456789abcdef"[d] as int
  {
  }

  function HexDigit(d: nat): Byte
    requires d < 16
  {
    if d < 10 then 48 + d else 87 + d
  }

  function Digits(n: nat, k: nat): (s: seq<Byte>)
    ensures |s| == k
  {
    if k == 0 then [] else Digits(n / 16, k - 1) + [HexDigit(n % 16)]
  }

  function AllDigits(n: nat): seq<Byte> {
    if n < 16 then [HexDigit(n)] else AllDigits(n / 16) + [HexDigit(n % 16)]
  }

  /** "%08x" % n: at least eight digits. */
  function Format(n: nat): seq<Byte> {
    if n < HEX_LIMIT then Digits(n, 8) else AllDigits(n)
  }

  /** How far it is from n to the next multiple of four. */
  function PadLength(n: nat): (k: nat)
    ensures k < 4 && (n + k) % 4 == 0
  {
    (4 - n % 4) % 4
  }

  function Padding(n: nat): (s: seq<Byte>)
    ensures |s| == PadLength(n)
  {
    seq(PadLength(n), _ => 0)
  }

  function Formats(ns: seq<nat>): seq<Byte> {
    if ns == [] then [] else Format(ns[0]) + Formats(ns[1..])
  }

  /** ino, mode, uid, gid, nlink, mtime, filesize, dev and rdev as major and minor, namesize, check. */
  function Fields(filesize: nat, namesize: nat): seq<nat> {
    [0, 0x81A4, 0, 0, 1, 0, filesize, 0, 0, 0, 0, namesize, 0]
  }

  function Header(filesize: nat, namesize: nat): seq<Byte> {
    MAGIC + Formats(Fields(filesize, namesize))
  }

  /** cpio_newc_entry */
  method NewcEntry(name: seq<Byte>, data: seq<Byte>) returns (result: seq<Byte>)
    ensures result == Entry(File(name, data))
    ensures |result| % 4 == 0
  {
    var encodedName := name + [0];
    var header := Header(|data|, |encodedName|);
    result := header + encodedName;
    result := result + Padding(|result|);
    result := result + data;
    result := result + Padding(|result|);
  }

  function Padded(s: seq<Byte>): (r: seq<Byte>)
    ensures |r| % 4 == 0
  {
    s + Padding(|s|)
  }

  /** The bytes of an entry. */
  function Entry(f: File): (r: seq<Byte>)
    ensures |r| % 4 == 0
  {
    Padded(Padded(Header(|f.data|, |f.name| + 1) + (f.name + [0])) + f.data)
  }

  /** name.lstrip("/") */
  function Strip(name: seq<Byte>): (r: seq<Byte>)
    ensures r != [] ==> r[0] != 47
  {
    if name != [] && name[0] == 47 then Strip(name[1..]) else name
  }

  function Stripped(files: seq<File>): (r: seq<File>)
    ensures |r| == |files|
  {
    if files == [] then [] else [File(Strip(files[0].name), files[0].data)] + Stripped(files[1..])
  }

  /** Only slashes, and all slashes, at the start of the name are dropped. */
  lemma {:induction false} StripIs(slashes: seq<Byte>, name: seq<Byte>)
    requires (forall i :: 0 <= i < |slashes| ==> slashes[i] == 47) && (name != [] ==> name[0] != 47)
    ensures Strip(slashes + name) == name
  {
    if slashes == [] {
      assert slashes + name == name;
    } else {
      StripIs(slashes[1..], name);
      assert (slashes + name)[1..] == slashes[1..] + name;
    }
  }

  lemma {:induction false} StrippedAt(files: seq<File>, i: nat)
    requires i < |files|
    ensures Stripped(files)[i] == File(Strip(files[i].name), files[i].data)
  {
    if i > 0 { StrippedAt(files[1..], i - 1); }
  }

  function Entries(files: seq<File>): seq<Byte> {
    if files == [] then Entry(File(TRAILER, [])) else Entry(files[0]) + Entries(files[1..])
  }

  lemma WriteOne(files: seq<File>, n: nat, out: seq<Byte>)
    requires n < |files|
    ensures out + Entries(Stripped(files[n..])) ==
      (out + Entry(File(Strip(files[n].name), files[n].data))) + Entries(Stripped(files[n + 1..]))
  {
    var rest := Stripped(files[n + 1..]);
    assert files[n..][1..] == files[n + 1..];
    assert Stripped(files[n..])[1..] == rest;
  }

  /** write_initramfs */
  method WriteInitramfs(files: seq<File>) returns (out: seq<Byte>)
    ensures out == Entries(Stripped(files))
  {
    out := [];
    for n := 0 to |files|
      invariant out + Entries(Stripped(files[n..])) == Entries(Stripped(files))
    {
      var entry := NewcEntry(Strip(files[n].name), files[n].data);
      WriteOne(files, n, out);
      out := out + entry;
    }
    var last := NewcEntry(TRAILER, []);
    out := out + last;
  }

  function HexValue(c: Byte): Option<nat> {
    if 48 <= c <= 57 then Some(c - 48)
    else if 97 <= c <= 102 then Some(c - 87)
    else if 65 <= c <= 70 then Some(c - 55)
    else None
  }

  function ParseHex(s: seq<Byte>): Option<nat> {
    if s == [] then Some(0)
    else
      var high, low := ParseHex(s[..|s| - 1]), HexValue(s[|s| - 1]);
      if high.None? || low.None? then None else Some(16 * high.value + low.value)
  }

  /** Field k of the header at offset off. */
  function Field(bytes: seq<Byte>, off: nat, k: nat): Option<nat>
    requires off + 110 <= |bytes| && k < 13
  {
    ParseHex(bytes[off + 6 + 8 * k..off + 14 + 8 * k])
  }

  function Align(off: nat): nat {
    off + PadLength(off)
  }

  datatype Reading = Reading(file: File, next: nat)

  /** One entry at offset off, its parts aligned by offset in the archive. */
  function ReadEntry(bytes: seq<Byte>, off: nat): (r: Option<Reading>)
    ensures r.Some? ==> off < r.value.next <= |bytes|
  {
    if off + 110 > |bytes| || bytes[off..off + 6] != MAGIC then None
    else
      var filesize, namesize := Field(bytes, off, 6), Field(bytes, off, 11);
      if filesize.None? || namesize.None? || namesize.value == 0 then None
      else
        var start := Align(off + 110 + namesize.value);
        var next := Align(start + filesize.value);
        if next > |bytes| then None
        else
          var name, data := bytes[off + 110..off + 110 + namesize.value - 1], bytes[start..start + filesize.value];
          Some(Reading(File(name, data), next))
  }

  /** The entries from offset off on, up to the trailer. */
  function Decode(bytes: seq<Byte>, off: nat): Option<seq<File>>
    decreases |bytes| - off
  {
    match ReadEntry(bytes, off)
    case None => None
    case Some(Reading(file, next)) =>
      if file.name == TRAILER then Some([])
      else
        match Decode(bytes, next)
        case None => None
        case Some(files) => Some([file] + files)
  }

  ghost function Limit(k: nat): nat {
    if k == 0 then 1 else 16 * Limit(k - 1)
  }

  lemma {:induction false} ParseDigits(n: nat, k: nat)
    requires n < Limit(k)
    ensures ParseHex(Digits(n, k)) == Some(n)
  {
    if k > 0 {
      ParseDigits(n / 16, k - 1);
      assert Digits(n, k)[..k - 1] == Digits(n / 16, k - 1);
      assert HexValue(HexDigit(n % 16)) == Some(n % 16);
    }
  }

  predicate AllSmall(ns: seq<nat>) {
    forall k :: 0 <= k < |ns| ==> ns[k] < HEX_LIMIT
  }

  /** Field k of a formatted list stands at its place. */
  lemma {:induction false} FormatAt(ns: seq<nat>, k: nat)
    requires AllSmall(ns) && k < |ns|
    ensures |Formats(ns)| == 8 * |ns| && Formats(ns)[8 * k..8 * k + 8] == Digits(ns[k], 8)
  {
    FormatsLength(ns);
    if k > 0 {
      FormatAt(ns[1..], k - 1);
      ShiftSlice(Format(ns[0]), Formats(ns[1..]), 8 * k - 8, 8 * k);
    }
  }

  lemma ShiftSlice(a: seq<Byte>, b: seq<Byte>, i: nat, j: nat)
    requires i <= j <= |b|
    ensures (a + b)[|a| + i..|a| + j] == b[i..j]
  {
  }

  lemma {:induction false} FormatsLength(ns: seq<nat>)
    requires AllSmall(ns)
    ensures |Formats(ns)| == 8 * |ns|
  {
    if ns != [] { FormatsLength(ns[1..]); }
  }

  lemma ParseEight(n: nat)
    requires n < HEX_LIMIT
    ensures ParseHex(Digits(n, 8)) == Some(n)
  {
    assert Limit(4) == 0x10000;
    assert Limit(8) == HEX_LIMIT;
    ParseDigits(n, 8);
  }

  lemma FieldInHeader(ns: seq<nat>, k: nat, field: seq<Byte>)
    requires AllSmall(ns) && |ns| == 13 && k < 13
    requires |MAGIC + Formats(ns)| == 110 && field == (MAGIC + Formats(ns))[6 + 8 * k..14 + 8 * k]
    ensures ParseHex(field) == Some(ns[k])
  {
    FormatAt(ns, k);
    ShiftSlice(MAGIC, Formats(ns), 8 * k, 8 * k + 8);
    ParseEight(ns[k]);
  }

  /** The reader finds the fields of a header. */
  lemma FieldRead(bytes: seq<Byte>, off: nat, ns: seq<nat>, header: seq<Byte>, k: nat)
    requires AllSmall(ns) && |ns| == 13 && k < 13 && header == MAGIC + Formats(ns) && off <= |bytes|
    requires header <= bytes[off..]
    ensures off + 110 <= |bytes| && Field(bytes, off, k) == Some(ns[k])
  {
    FormatsLength(ns);
    var i, j := 6 + 8 * k, 14 + 8 * k;
    var field := header[i..j];
    FieldInHeader(ns, k, field);
    Within(bytes, off, header, 0, 110);
    SameField(bytes, off, header, k, field);
  }

  lemma SameField(bytes: seq<Byte>, off: nat, header: seq<Byte>, k: nat, field: seq<Byte>)
    requires |header| == 110 && off + 110 <= |bytes| && header <= bytes[off..] && k < 13
    requires field == header[6 + 8 * k..14 + 8 * k]
    ensures Field(bytes, off, k) == ParseHex(field)
  {
    Within(bytes, off, header, 6 + 8 * k, 14 + 8 * k);
  }

  /** Padding relative to an aligned offset is padding by offset. */
  lemma PaddedLength(s: seq<Byte>, off: nat)
    requires off % 4 == 0
    ensures off + |Padded(s)| == Align(off + |s|)
  {
    assert (off + |s|) % 4 == |s| % 4;
  }

  predicate Small(f: File) {
    |f.data| < HEX_LIMIT && |f.name| + 1 < HEX_LIMIT
  }

  /** Where the parts of an entry are. */
  lemma Parts(header: seq<Byte>, name: seq<Byte>, data: seq<Byte>)
    ensures var front := header + (name + [0]);
      var entry, n := Padded(Padded(front) + data), |Padded(front)|;
      && header <= entry && |header| + |name| < n && n + |data| <= |entry|
      && entry[|header|..|header| + |name|] == name && entry[n..n + |data|] == data
  {
    var front := header + (name + [0]);
    var body := Padded(front) + data;
    var entry := Padded(body);
    assert entry[..|header|] == header;
    assert entry[|header|..|header| + |name|] == front[|header|..|header| + |name|] == name;
    assert entry[|Padded(front)|..|body|] == body[|Padded(front)|..] == data;
  }

  lemma Within(bytes: seq<Byte>, off: nat, part: seq<Byte>, i: nat, j: nat)
    requires off <= |bytes| && part <= bytes[off..] && i <= j <= |part|
    ensures off + j <= |bytes| && bytes[off + i..off + j] == part[i..j]
  {
    assert bytes[off..][i..j] == part[i..j];
  }

  /** The offsets at which the reader looks are those at which the writer put the parts. */
  lemma SameOffsets(header: seq<Byte>, name: seq<Byte>, data: seq<Byte>, off: nat)
    requires off % 4 == 0
    ensures var front := Padded(header + (name + [0]));
      && off + |front| == Align(off + |header| + |name| + 1)
      && off + |Padded(front + data)| == Align(off + |front| + |data|)
  {
    PaddedLength(header + (name + [0]), off);
    PaddedLength(Padded(header + (name + [0])) + data, off);
  }

  lemma ReadParts(bytes: seq<Byte>, off: nat, f: File, start: nat, next: nat)
    requires off + 110 <= |bytes| && bytes[off..off + 6] == MAGIC
    requires Field(bytes, off, 6) == Some(|f.data|) && Field(bytes, off, 11) == Some(|f.name| + 1)
    requires start == Align(off + 110 + |f.name| + 1) && next == Align(start + |f.data|)
    requires start + |f.data| <= next <= |bytes|
    requires bytes[off + 110..off + 110 + |f.name|] == f.name && bytes[start..start + |f.data|] == f.data
    ensures ReadEntry(bytes, off) == Some(Reading(f, next))
  {
  }

  /** The reader finds name and data where the writer put them. */
  lemma BodyRead(bytes: seq<Byte>, off: nat, f: File, header: seq<Byte>, entry: seq<Byte>) returns (start: nat)
    requires |header| == 110 && entry == Padded(Padded(header + (f.name + [0])) + f.data)
    requires off % 4 == 0 && off <= |bytes| && entry <= bytes[off..]
    ensures header <= entry
    ensures start == Align(off + 110 + |f.name| + 1) && off + |entry| == Align(start + |f.data|)
    ensures off + 110 + |f.name| <= start <= start + |f.data| <= off + |entry| <= |bytes|
    ensures bytes[off + 110..off + 110 + |f.name|] == f.name && bytes[start..start + |f.data|] == f.data
  {
    Parts(header, f.name, f.data);
    SameOffsets(header, f.name, f.data, off);
    var n := |Padded(header + (f.name + [0]))|;
    start := off + n;
    Within(bytes, off, entry, 110, 110 + |f.name|);
    Within(bytes, off, entry, n, n + |f.data|);
  }

  lemma EntryReadWith(bytes: seq<Byte>, off: nat, f: File, ns: seq<nat>, header: seq<Byte>, entry: seq<Byte>, next: nat)
    requires AllSmall(ns) && |ns| == 13 && ns[6] == |f.data| && ns[11] == |f.name| + 1
    requires header == MAGIC + Formats(ns) && entry == Padded(Padded(header + (f.name + [0])) + f.data)
    requires off % 4 == 0 && off <= |bytes| && entry <= bytes[off..] && next == off + |entry|
    ensures ReadEntry(bytes, off) == Some(Reading(f, next))
  {
    FormatsLength(ns);
    var start := BodyRead(bytes, off, f, header, entry);
    assert header <= bytes[off..];
    Within(bytes, off, header, 0, 6);
    FieldRead(bytes, off, ns, header, 6);
    FieldRead(bytes, off, ns, header, 11);
    ReadParts(bytes, off, f, start, next);
  }

  lemma EntryRead(bytes: seq<Byte>, off: nat, f: File, entry: seq<Byte>, next: nat)
    requires Small(f) && off % 4 == 0 && off <= |bytes| && entry == Entry(f) && entry <= bytes[off..]
    requires next == off + |entry|
    ensures ReadEntry(bytes, off) == Some(Reading(f, next))
  {
    var ns := Fields(|f.data|, |f.name| + 1);
    assert AllSmall(ns) && |ns| == 13 && ns[6] == |f.data| && ns[11] == |f.name| + 1;
    EntryReadWith(bytes, off, f, ns, Header(|f.data|, |f.name| + 1), entry, next);
  }

  /** What a field of a header is to hold. */
  function FieldValue(f: File, k: nat): nat {
    if k == 1 then 8 * 4096 + 6 * 64 + 4 * 8 + 4 // a regular file of mode 0644
    else if k == 4 then 1
    else if k == 6 then |f.data|
    else if k == 11 then |f.name| + 1
    else 0
  }

  lemma FieldsAre(f: File, k: nat)
    requires k < 13
    ensures Fields(|f.data|, |f.name| + 1)[k] == FieldValue(f, k)
  {
  }

  lemma HeaderStarts(bytes: seq<Byte>, off: nat, f: File, header: seq<Byte>, entry: seq<Byte>)
    requires off <= |bytes| && entry == Padded(Padded(header + (f.name + [0])) + f.data) && entry <= bytes[off..]
    ensures header <= bytes[off..]
  {
    Parts(header, f.name, f.data);
  }

  /** Every field of the header of an entry is read as written. */
  lemma EntryFields(bytes: seq<Byte>, off: nat, f: File, k: nat)
    requires Small(f) && off <= |bytes| && Entry(f) <= bytes[off..] && k < 13
    ensures off + 110 <= |bytes| && Field(bytes, off, k) == Some(FieldValue(f, k))
  {
    var ns, header := Fields(|f.data|, |f.name| + 1), Header(|f.data|, |f.name| + 1);
    HeaderStarts(bytes, off, f, header, Entry(f));
    FieldsAre(f, k);
    FieldRead(bytes, off, ns, header, k);
  }

  /** The files up to the first that is named like the trailer. */
  function UpToTrailer(files: seq<File>): seq<File> {
    if files == [] || files[0].name == TRAILER then [] else [files[0]] + UpToTrailer(files[1..])
  }

  lemma DecodeStep(bytes: seq<Byte>, off: nat, f: File, entry: seq<Byte>, rest: seq<Byte>, next: nat)
    requires Small(f) && off % 4 == 0 && off <= |bytes| && entry == Entry(f) && bytes[off..] == entry + rest
    requires next == off + |entry|
    ensures next % 4 == 0 && next <= |bytes| && bytes[next..] == rest
    ensures f.name == TRAILER ==> Decode(bytes, off) == Some([])
    ensures f.name != TRAILER && Decode(bytes, next).Some? ==>
      Decode(bytes, off) == Some([f] + Decode(bytes, next).value)
  {
    EntryRead(bytes, off, f, entry, next);
    assert bytes[next..] == bytes[off..][|entry|..];
  }

  /** The reader gets back the files up to one that is named like the trailer. */
  lemma {:induction false} DecodeEntries(bytes: seq<Byte>, off: nat, files: seq<File>, text: seq<Byte>)
    requires off % 4 == 0 && off <= |bytes| && text == Entries(files) && bytes[off..] == text
    requires forall f :: f in files ==> Small(f)
    ensures Decode(bytes, off) == Some(UpToTrailer(files))
    decreases |files|
  {
    if files == [] {
      assert text == text + [];
      DecodeStep(bytes, off, File(TRAILER, []), text, [], |bytes|);
    } else {
      var entry, rest := Entry(files[0]), Entries(files[1..]);
      DecodeStep(bytes, off, files[0], entry, rest, off + |entry|);
      if files[0].name != TRAILER {
        DecodeEntries(bytes, off + |entry|, files[1..], rest);
      }
    }
  }

  lemma {:induction false} UpToTrailerIff(files: seq<File>)
    ensures |UpToTrailer(files)| <= |files|
    ensures UpToTrailer(files) == files <==> forall f :: f in files ==> f.name != TRAILER
  {
    if files != [] {
      UpToTrailerIff(files[1..]);
      assert files == [files[0]] + files[1..];
    }
  }

  /** An archive is read back as it was written exactly when no file is named like the trailer. */
  lemma RoundTrip(files: seq<File>)
    requires forall f :: f in Stripped(files) ==> Small(f)
    ensures Decode(Entries(Stripped(files)), 0) == Some(Stripped(files)) <==>
      forall f :: f in Stripped(files) ==> f.name != TRAILER
  {
    var bytes := Entries(Stripped(files));
    assert bytes[0..] == bytes;
    DecodeEntries(bytes, 0, Stripped(files), bytes);
    UpToTrailerIff(Stripped(files));
  }

  /** It fails on a single file of that name: what is read back is empty. */
  lemma NamedLikeTrailer(data: seq<Byte>)
    requires |data| < HEX_LIMIT
    ensures var files := Stripped([File(TRAILER, data)]);
      files != [] && Decode(Entries(files), 0) == Some([])
  {
    var files := Stripped([File(TRAILER, data)]);
    var bytes := Entries(files);
    assert files[0] == File(TRAILER, data);
    assert bytes[0..] == bytes;
    DecodeEntries(bytes, 0, files, bytes);
  }

  /** From offset off on all entries, the trailer included, are regular files of mode 0644 with one link. */
  predicate AllRegular(bytes: seq<Byte>, off: nat)
    decreases |bytes| - off
  {
    match ReadEntry(bytes, off)
    case None => false
    case Some(Reading(file, next)) =>
      && Field(bytes, off, 1) == Some(8 * 4096 + 6 * 64 + 4 * 8 + 4) && Field(bytes, off, 4) == Some(1)
      && (file.name == TRAILER || AllRegular(bytes, next))
  }

  lemma RegularStep(bytes: seq<Byte>, off: nat, f: File, entry: seq<Byte>, rest: seq<Byte>, next: nat)
    requires Small(f) && off % 4 == 0 && off <= |bytes| && entry == Entry(f) && bytes[off..] == entry + rest
    requires next == off + |entry|
    ensures next % 4 == 0 && next <= |bytes| && bytes[next..] == rest
    ensures f.name == TRAILER || AllRegular(bytes, next) ==> AllRegular(bytes, off)
  {
    EntryRead(bytes, off, f, entry, next);
    EntryFields(bytes, off, f, 1);
    EntryFields(bytes, off, f, 4);
    assert bytes[next..] == bytes[off..][|entry|..];
  }

  /** That is what the writer makes. */
  lemma {:induction false} WritesRegular(bytes: seq<Byte>, off: nat, files: seq<File>, text: seq<Byte>)
    requires off % 4 == 0 && off <= |bytes| && text == Entries(files) && bytes[off..] == text
    requires forall f :: f in files ==> Small(f)
    ensures AllRegular(bytes, off)
    decreases |files|
  {
    if files == [] {
      assert text == text + [];
      RegularStep(bytes, off, File(TRAILER, []), text, [], |bytes|);
    } else {
      var entry, rest := Entry(files[0]), Entries(files[1..]);
      RegularStep(bytes, off, files[0], entry, rest, off + |entry|);
      WritesRegular(bytes, off + |entry|, files[1..], rest);
    }
  }
}
