/**
 * The file preview helpers of the web client (Home.tsx): the extension-based
 * preview classification of a file card, and the hex/ASCII dump the preview
 * dialog shows for binary and unknown files (16 bytes per row, first 4 KB).
 */
module FilePreview {
  import opened Text

  type Byte = x: int | 0 <= x < 256

  /** Only the first 4 KB of a file are dumped. */
  const MaxBytes: nat := 4096
  /** Bytes per dump row. */
  const RowWidth: nat := 16
  /** The width the hex column is padded to: 16 two-digit cells and 15 separators. */
  const HexWidth: nat := 47

  /** One row of the dump: the offset, the hex cells and the ASCII cells. */
  datatype HexRow = HexRow(offset: string, hex: string, ascii: string)

  predicate IsHexDigit(c: char) {
    ('0' <= c <= '9') || ('a' <= c <= 'f')
  }

  function HexDigit(d: nat): (c: char)
    requires d < 16
    ensures IsHexDigit(c)
  {
    if d < 10 then (48 + d) as char else (87 + d) as char
  }

  function HexDigitValue(c: char): (d: nat)
    requires IsHexDigit(c)
    ensures d < 16
  {
    if c <= '9' then c as int - 48 else c as int - 87
  }

  /** `n.toString(16)`: lowercase hex digits without leading zeros. */
  function ToHex(n: nat): (r: string)
    ensures |r| >= 1 && forall i :: 0 <= i < |r| ==> IsHexDigit(r[i])
  {
    if n < 16 then [HexDigit(n)] else ToHex(n / 16) + [HexDigit(n % 16)]
  }

  /** The value of a string of hex digits, most significant first. */
  function HexValue(s: string): nat
    requires forall i :: 0 <= i < |s| ==> IsHexDigit(s[i])
  {
    if s == [] then 0 else 16 * HexValue(s[..|s| - 1]) + HexDigitValue(s[|s| - 1])
  }

  lemma {:induction false} ToHexRoundTrip(n: nat)
    ensures HexValue(ToHex(n)) == n
  {
    if n >= 16 {
      ToHexRoundTrip(n / 16);
      var s := ToHex(n);
      assert s[..|s| - 1] == ToHex(n / 16);
    }
  }

  /** `toString(16)` of a number below 16^k has at most `k` digits. */
  lemma {:induction false} ToHexLength(n: nat, k: nat)
    requires 1 <= k && n < Pow16(k)
    ensures |ToHex(n)| <= k
  {
    if n >= 16 {
      ToHexLength(n / 16, k - 1);
    }
  }

  function Pow16(k: nat): nat {
    if k == 0 then 1 else 16 * Pow16(k - 1)
  }

  function Repeat(c: char, n: nat): (r: string)
    ensures |r| == n && forall i :: 0 <= i < n ==> r[i] == c
  {
    seq(n, i => c)
  }

  /** `s.padStart(width, c)`. */
  function PadStart(s: string, width: nat, c: char): string {
    if |s| >= width then s else Repeat(c, width - |s|) + s
  }

  /** `s.padEnd(width, c)`. */
  function PadEnd(s: string, width: nat, c: char): string {
    if |s| >= width then s else s + Repeat(c, width - |s|)
  }

  /** Leading zeros do not change a hex value. */
  lemma {:induction false} HexLeadingZeros(z: nat, s: string)
    requires forall i :: 0 <= i < |s| ==> IsHexDigit(s[i])
    ensures HexValue(Repeat('0', z) + s) == HexValue(s)
    decreases |s|, z
  {
    var t := Repeat('0', z) + s;
    if s == [] {
      assert t == Repeat('0', z);
      if z > 0 {
        assert t[..|t| - 1] == Repeat('0', z - 1);
        HexLeadingZeros(z - 1, []);
        assert Repeat('0', z - 1) + [] == Repeat('0', z - 1);
      }
    } else {
      assert t[..|t| - 1] == Repeat('0', z) + s[..|s| - 1];
      HexLeadingZeros(z, s[..|s| - 1]);
    }
  }

  /** A zero-padded hex text reads back as the number it was made from. */
  lemma PaddedHexRoundTrip(n: nat, width: nat)
    ensures var r := PadStart(ToHex(n), width, '0');
      (forall i :: 0 <= i < |r| ==> IsHexDigit(r[i])) && HexValue(r) == n
  {
    ToHexRoundTrip(n);
    var h := ToHex(n);
    if |h| < width {
      HexLeadingZeros(width - |h|, h);
    }
  }

  /** One hex cell: `byte.toString(16).padStart(2, '0')`. */
  function ByteHex(b: Byte): (r: string)
    ensures |r| == 2
  {
    ToHexLength(b, 2);
    PadStart(ToHex(b), 2, '0')
  }

  /** One ASCII cell: printable bytes as themselves, everything else as `.`. */
  function AsciiCell(b: Byte): char {
    if 32 <= b <= 126 then b as char else '.'
  }

  function HexCells(chunk: seq<Byte>): (r: seq<string>)
    ensures |r| == |chunk|
  {
    seq(|chunk|, i requires 0 <= i < |chunk| => ByteHex(chunk[i]))
  }

  function AsciiCells(chunk: seq<Byte>): (r: string)
    ensures |r| == |chunk|
  {
    seq(|chunk|, i requires 0 <= i < |chunk| => AsciiCell(chunk[i]))
  }

  /** `parts.join(' ')`. */
  function JoinSpace(parts: seq<string>): string {
    if parts == [] then ""
    else if |parts| == 1 then parts[0]
    else JoinSpace(parts[..|parts| - 1]) + " " + parts[|parts| - 1]
  }

  /** Joining two-character cells puts cell `j` at position `3j`. */
  lemma {:induction false} JoinCells(parts: seq<string>)
    requires |parts| > 0 && forall j :: 0 <= j < |parts| ==> |parts[j]| == 2
    ensures |JoinSpace(parts)| == 3 * |parts| - 1
    ensures forall j :: 0 <= j < |parts| ==> JoinSpace(parts)[3 * j..3 * j + 2] == parts[j]
  {
    if |parts| > 1 {
      var init := parts[..|parts| - 1];
      JoinCells(init);
      var s := JoinSpace(parts);
      assert s == JoinSpace(init) + " " + parts[|parts| - 1];
      forall j | 0 <= j < |parts| ensures s[3 * j..3 * j + 2] == parts[j] {
        if j < |parts| - 1 {
          assert s[3 * j..3 * j + 2] == JoinSpace(init)[3 * j..3 * j + 2];
        }
      }
    }
  }

  function Min(a: nat, b: nat): nat {
    if a <= b then a else b
  }

  /** The bytes that are dumped: the first 4 KB. */
  function View(buffer: seq<Byte>): seq<Byte> {
    buffer[..Min(|buffer|, MaxBytes)]
  }

  /** The row starting at byte `16 * k` of `view`. */
  function Row(view: seq<Byte>, k: nat): HexRow
    requires RowWidth * k < |view|
  {
    var start := RowWidth * k;
    var chunk := view[start..Min(start + RowWidth, |view|)];
    HexRow(PadStart(ToHex(start), 8, '0'), PadEnd(JoinSpace(HexCells(chunk)), HexWidth, ' '), AsciiCells(chunk))
  }

  /** The rows the dump shows for a file's contents. */
  function HexDumpRows(buffer: seq<Byte>): seq<HexRow> {
    var view := View(buffer);
    seq((|view| + RowWidth - 1) / RowWidth, k requires 0 <= k < (|view| + RowWidth - 1) / RowWidth => Row(view, k))
  }

  /** The hex-view loader: rows of 16 bytes over the first 4 KB of the buffer. */
  method HexDump(buffer: seq<Byte>) returns (rows: seq<HexRow>)
    ensures rows == HexDumpRows(buffer)
  {
    var view := buffer[..Min(|buffer|, MaxBytes)];
    rows := [];
    var i := 0;
    while i < |view|
      invariant i == RowWidth * |rows| && i <= |view| + RowWidth - 1
      invariant forall k :: 0 <= k < |rows| ==> RowWidth * k < |view| && rows[k] == Row(view, k)
      decreases |view| - i
    {
      var chunk, ascii := RowCells(view, i);
      var row := HexRow(PadStart(ToHex(i), 8, '0'), PadEnd(JoinSpace(chunk), HexWidth, ' '), ascii);
      assert row == Row(view, |rows|);
      ghost var done := rows;
      rows := rows + [row];
      forall k | 0 <= k < |rows| ensures RowWidth * k < |view| && rows[k] == Row(view, k) {
        if k < |done| {
          assert rows[k] == done[k];
        } else {
          assert rows[k] == row;
        }
      }
      i := i + RowWidth;
    }
    AllRows(buffer, rows);
  }

  /** Rows `0..m` of the view, where `m` is the number of started groups of 16, are the whole dump. */
  lemma AllRows(buffer: seq<Byte>, rows: seq<HexRow>)
    requires |View(buffer)| <= RowWidth * |rows| <= |View(buffer)| + RowWidth - 1
    requires forall k :: 0 <= k < |rows| ==> RowWidth * k < |View(buffer)| && rows[k] == Row(View(buffer), k)
    ensures rows == HexDumpRows(buffer)
  {
    var n := |View(buffer)|;
    assert |rows| == (n + RowWidth - 1) / RowWidth;
  }

  /** The inner loop of one row: the hex and ASCII cells of the (up to) 16 bytes from `i`. */
  method RowCells(view: seq<Byte>, i: nat) returns (chunk: seq<string>, ascii: string)
    requires i < |view|
    ensures var bytes := view[i..Min(i + RowWidth, |view|)];
      chunk == HexCells(bytes) && ascii == AsciiCells(bytes)
  {
    chunk, ascii := [], [];
    var j := 0;
    while j < RowWidth && i + j < |view|
      invariant 0 <= j <= RowWidth && i + j <= |view|
      invariant chunk == HexCells(view[i..i + j]) && ascii == AsciiCells(view[i..i + j])
    {
      var b := view[i + j];
      chunk := chunk + [ByteHex(b)];
      ascii := ascii + [AsciiCell(b)];
      j := j + 1;
    }
    assert i + j == Min(i + RowWidth, |view|);
  }

  /** The rows cover the dumped bytes: one row per started group of 16, and bytes past 4 KB are never read. */
  lemma RowCount(buffer: seq<Byte>)
    ensures var n := Min(|buffer|, MaxBytes);
      RowWidth * (|HexDumpRows(buffer)| - 1) < n <= RowWidth * |HexDumpRows(buffer)| || (n == 0 && HexDumpRows(buffer) == [])
    ensures |buffer| > MaxBytes ==> HexDumpRows(buffer) == HexDumpRows(buffer[..MaxBytes])
  {
    if |buffer| > MaxBytes {
      assert View(buffer[..MaxBytes]) == View(buffer);
    }
  }

  /** Every offset is eight lowercase hex digits that read back as the row's first byte index. */
  lemma OffsetsReadBack(buffer: seq<Byte>, k: nat)
    requires k < |HexDumpRows(buffer)|
    ensures var off := HexDumpRows(buffer)[k].offset;
      |off| == 8 && (forall i :: 0 <= i < 8 ==> IsHexDigit(off[i])) && HexValue(off) == RowWidth * k
  {
    var start := RowWidth * k;
    ToHexLength(start, 3);
    PaddedHexRoundTrip(start, 8);
  }

  /**
   * Every dumped byte at position `p` appears in row `p / 16`, column
   * `p % 16`: its hex cell reads back as the byte, and its ASCII cell is the
   * byte itself when printable and `.` otherwise. The hex column is always
   * 47 characters wide.
   */
  lemma CellsShowBytes(buffer: seq<Byte>, p: nat)
    requires p < Min(|buffer|, MaxBytes)
    ensures var row := HexDumpRows(buffer)[p / RowWidth];
      var col := p % RowWidth;
      var cell := row.hex[3 * col..3 * col + 2];
      |row.hex| == HexWidth
      && (forall i :: 0 <= i < 2 ==> IsHexDigit(cell[i])) && HexValue(cell) == buffer[p]
      && col < |row.ascii|
      && (32 <= buffer[p] <= 126 ==> row.ascii[col] as int == buffer[p])
      && (buffer[p] < 32 || buffer[p] > 126 ==> row.ascii[col] == '.')
  {
    var view := View(buffer);
    var k, col := p / RowWidth, p % RowWidth;
    RowOf(p, |view|);
    assert HexDumpRows(buffer)[k] == Row(view, k);
    assert view[p] == buffer[p];
    RowCellShows(view, k, col);
  }

  /** Byte `p` of an `n`-byte view lies in row `p / 16`, one of the rows shown. */
  lemma RowOf(p: nat, n: nat)
    requires p < n
    ensures p == RowWidth * (p / RowWidth) + p % RowWidth && p % RowWidth < RowWidth
    ensures p / RowWidth < (n + RowWidth - 1) / RowWidth
  {
  }

  /** Column `col` of row `k` reads back as byte `16k + col` of the view. */
  lemma RowCellShows(view: seq<Byte>, k: nat, col: nat)
    requires col < RowWidth && RowWidth * k + col < |view|
    ensures var row := Row(view, k);
      var b := view[RowWidth * k + col];
      var cell := row.hex[3 * col..3 * col + 2];
      |row.hex| == HexWidth
      && (forall i :: 0 <= i < 2 ==> IsHexDigit(cell[i])) && HexValue(cell) == b
      && col < |row.ascii|
      && (32 <= b <= 126 ==> row.ascii[col] as int == b)
      && (b < 32 || b > 126 ==> row.ascii[col] == '.')
  {
    RowCell(view, k, col);
    ByteHexReadsBack(view[RowWidth * k + col]);
    AsciiCellShows(view[RowWidth * k + col]);
  }

  /** A byte's hex cell is two hex digits that read back as the byte. */
  lemma ByteHexReadsBack(b: Byte)
    ensures var cell := ByteHex(b);
      (forall i :: 0 <= i < 2 ==> IsHexDigit(cell[i])) && HexValue(cell) == b
  {
    PaddedHexRoundTrip(b, 2);
  }

  /** A byte's ASCII cell is the byte when printable and `.` otherwise. */
  lemma AsciiCellShows(b: Byte)
    ensures 32 <= b <= 126 ==> AsciiCell(b) as int == b
    ensures b < 32 || b > 126 ==> AsciiCell(b) == '.'
  {
  }

  /** Column `col` of row `k` shows byte `16k + col` of the view. */
  lemma RowCell(view: seq<Byte>, k: nat, col: nat)
    requires col < RowWidth && RowWidth * k + col < |view|
    ensures var row := Row(view, k);
      |row.hex| == HexWidth && row.hex[3 * col..3 * col + 2] == ByteHex(view[RowWidth * k + col])
      && col < |row.ascii| && row.ascii[col] == AsciiCell(view[RowWidth * k + col])
  {
    var start := RowWidth * k;
    var chunk := view[start..Min(start + RowWidth, |view|)];
    var cells := HexCells(chunk);
    JoinCells(cells);
    var joined := JoinSpace(cells);
    var hex := PadEnd(joined, HexWidth, ' ');
    assert hex[3 * col..3 * col + 2] == joined[3 * col..3 * col + 2];
    assert cells[col] == ByteHex(chunk[col]);
  }

  /** The extension lists of a file card. */
  const ImageExts: seq<string> := ["jpg", "jpeg", "png", "gif", "webp", "svg", "bmp", "ico"]
  const VideoExts: seq<string> := ["mp4", "webm", "ogg", "mov"]
  const AudioExts: seq<string> := ["mp3", "wav", "ogg", "m4a", "flac", "aac"]
  const TextExts: seq<string> := ["txt", "md", "log", "js", "py", "java", "xml", "json", "css", "html", "ts", "tsx",
    "c", "cpp", "h", "hpp", "go", "rs", "sh", "bat", "ini", "yaml", "yml", "sql", "properties", "conf"]
  const ZipExts: seq<string> := ["zip", "jar"]
  const OfficeExts: seq<string> := ["doc", "docx", "xls", "xlsx", "ppt", "pptx"]
  const BinExts: seq<string> := ["bin", "multi", "dat", "exe", "dll", "so", "dylib"]

  /** A file name's extension as the file card computes it. */
  function Extension(name: string): string {
    AsciiLower(AfterLast(name, '.'))
  }

  predicate IsImage(ext: string) { ext in ImageExts }
  predicate IsVideo(ext: string) { ext in VideoExts }
  predicate IsAudio(ext: string) { ext in AudioExts }
  predicate IsPdf(ext: string) { ext == "pdf" }
  predicate IsText(ext: string) { ext in TextExts }
  predicate IsZip(ext: string) { ext in ZipExts }
  predicate IsOffice(ext: string) { ext in OfficeExts }
  predicate IsCsv(ext: string) { ext == "csv" }
  predicate IsBin(ext: string) { ext in BinExts }

  /** Whether an extension belongs to one of the previewable kinds. */
  predicate Previewable(ext: string) {
    IsImage(ext) || IsVideo(ext) || IsAudio(ext) || IsPdf(ext) || IsText(ext)
    || IsZip(ext) || IsOffice(ext) || IsCsv(ext) || IsBin(ext)
  }

  /** Whether the file card offers a preview. */
  predicate CanPreview(name: string) {
    Previewable(Extension(name))
  }

  /** The extension of `base.ext` is `ext` in lower case, whatever `base` holds. */
  lemma {:induction false} ExtensionOfDotted(base: string, ext: string)
    requires forall i :: 0 <= i < |ext| ==> ext[i] != '.'
    ensures Extension(base + "." + ext) == AsciiLower(ext)
    decreases |ext|
  {
    var s := base + "." + ext;
    if ext == [] {
      assert s[|s| - 1] == '.';
    } else {
      assert s[..|s| - 1] == base + "." + ext[..|ext| - 1];
      ExtensionOfDotted(base, ext[..|ext| - 1]);
      assert AfterLast(s, '.') == AfterLast(base + "." + ext[..|ext| - 1], '.') + [ext[|ext| - 1]];
    }
  }

  /** A name without a dot is its own extension, so a file called `pdf` previews as a PDF. */
  lemma {:induction false} ExtensionOfUndotted(name: string)
    requires forall i :: 0 <= i < |name| ==> name[i] != '.'
    ensures Extension(name) == AsciiLower(name)
    decreases |name|
  {
    if name != [] {
      ExtensionOfUndotted(name[..|name| - 1]);
      assert AfterLast(name, '.') == AfterLast(name[..|name| - 1], '.') + [name[|name| - 1]];
      assert name[..|name| - 1] + [name[|name| - 1]] == name;
    }
  }

  /** Previewability ignores the case of ASCII letters in the name. */
  lemma CanPreviewIgnoresCase(name: string)
    ensures CanPreview(AsciiUpper(name)) == CanPreview(name)
  {
    UpperKeepsDots(name);
    LowerOfUpper(AfterLast(name, '.'));
    SameExtensionSamePreview(AsciiUpper(name), name);
  }

  lemma LowerOfUpper(s: string)
    ensures AsciiLower(AsciiUpper(s)) == AsciiLower(s)
  {
    var a, b := AsciiLower(AsciiUpper(s)), AsciiLower(s);
    assert forall i :: 0 <= i < |s| ==> a[i] == AsciiLowerChar(AsciiUpperChar(s[i])) == b[i];
  }

  lemma SameExtensionSamePreview(a: string, b: string)
    requires Extension(a) == Extension(b)
    ensures CanPreview(a) == CanPreview(b)
  {
  }

  /** Upper-casing moves no dots, so the last segment of the upper-cased name is the upper-cased last segment. */
  lemma {:induction false} UpperKeepsDots(s: string)
    ensures AfterLast(AsciiUpper(s), '.') == AsciiUpper(AfterLast(s, '.'))
    decreases |s|
  {
    if s != [] {
      var init, c := s[..|s| - 1], s[|s| - 1];
      assert s == init + [c];
      var uc := AsciiUpperChar(c);
      assert uc == '.' <==> c == '.';
      UpperSnoc(init, c);
      AfterLastSnoc(init, c);
      AfterLastSnoc(AsciiUpper(init), uc);
      UpperKeepsDots(init);
      if c != '.' {
        UpperSnoc(AfterLast(init, '.'), c);
      }
    }
  }

  lemma AfterLastSnoc(s: string, c: char)
    ensures AfterLast(s + [c], '.') == if c == '.' then [] else AfterLast(s, '.') + [c]
  {
    assert (s + [c])[..|s|] == s;
  }

  lemma UpperSnoc(a: string, c: char)
    ensures AsciiUpper(a + [c]) == AsciiUpper(a) + [AsciiUpperChar(c)]
  {
  }

  /** A name ending in a dot has the empty extension and no preview. */
  lemma TrailingDotNoPreview(base: string)
    ensures Extension(base + ".") == "" && !CanPreview(base + ".")
  {
    assert (base + ".")[|base|] == '.';
  }
}
