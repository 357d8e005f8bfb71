/** The GUI's hex view of a message payload (`dump_bytes`): one line per
    16-byte chunk, each an 8-digit hex offset, the 16 byte cells in groups
    of four and the printable characters, with the output cut short by
    `...` after `maxLine` lines. */
module HexDump {
  import opened Bytes
  import opened Strings

  // ---------------------------------------------------------------------
  // Lower-case hexadecimal (`{:0Nx}`)

  /** The lower-case hex digit of `d`. */
  function HexDigit(d: nat): (c: char)
    requires d < 16
    ensures IsHexDigit(c)
  {
    if d < 10 then ('0' as int + d) as char else ('a' as int + d - 10) as char
  }

  predicate IsHexDigit(c: char) {
    '0' <= c <= '9' || 'a' <= c <= 'f'
  }

  /** `s` is all hex digits. */
  predicate AllHex(s: string) {
    forall i :: 0 <= i < |s| ==> IsHexDigit(s[i])
  }

  lemma {:induction false} HexHasNoNewline(s: string)
    requires AllHex(s)
    ensures '\n' !in s
  {
  }

  /** The value of a lower-case hex digit. */
  function DigitValue(c: char): (d: nat)
    requires IsHexDigit(c)
    ensures d < 16 && HexDigit(d) == c
  {
    if c <= '9' then c as int - '0' as int else c as int - 'a' as int + 10
  }

  lemma {:induction false} DigitRoundTrip(d: nat)
    requires d < 16
    ensures DigitValue(HexDigit(d)) == d
  {
  }

  /** 16^k. */
  function Pow16(k: nat): (r: nat)
    ensures r >= 1
  {
    if k == 0 then 1 else 16 * Pow16(k - 1)
  }

  /** `format!("{:0w$x}", n)`: the lower-case hex digits of `n`, most
      significant first, zero-padded on the left to at least `width`
      characters; zero is `0`. Digits are produced from the right until both
      the number and the padding are used up. */
  function Hex(n: nat, width: nat): (s: string)
    ensures |s| >= 1 && |s| >= width && AllHex(s)
    decreases n + width
  {
    if n < 16 && width <= 1 then [HexDigit(n)]
    else Hex(n / 16, if width == 0 then 0 else width - 1) + [HexDigit(n % 16)]
  }

  /** The number a string of hex digits denotes, most significant first. */
  function ParseHex(s: string): (n: nat)
    requires AllHex(s)
  {
    if |s| == 0 then 0 else 16 * ParseHex(s[..|s| - 1]) + DigitValue(s[|s| - 1])
  }

  /** Reading the formatted digits back gives the number: `{:0Nx}` loses
      nothing. */
  lemma {:induction false} HexRoundTrip(n: nat, width: nat)
    ensures ParseHex(Hex(n, width)) == n
    decreases n + width
  {
    var s := Hex(n, width);
    DigitRoundTrip(n % 16);
    if n < 16 && width <= 1 {
      assert s[..|s| - 1] == [];
    } else {
      var w := if width == 0 then 0 else width - 1;
      HexRoundTrip(n / 16, w);
      assert s[..|s| - 1] == Hex(n / 16, w);
      assert ParseHex(s) == 16 * (n / 16) + n % 16;
    }
  }

  /** Padding to `width` gives exactly `width` digits when the number fits. */
  lemma {:induction false} HexWidth(n: nat, width: nat)
    requires width >= 1 && n < Pow16(width)
    ensures |Hex(n, width)| == width
    decreases width
  {
    if width > 1 {
      HexWidth(n / 16, width - 1);
    }
  }

  /** `{:02x}` of a byte: exactly two digits. */
  function Hex2(b: byte): (s: string)
    ensures |s| == 2 && AllHex(s)
    ensures ParseHex(s) == b
  {
    assert Pow16(2) == 256;
    HexWidth(b, 2);
    HexRoundTrip(b, 2);
    Hex(b, 2)
  }

  // ---------------------------------------------------------------------
  // The byte columns

  const ChunkSize: nat := 16

  /** Cell `i` of a line's hex column: `"| "` before every fourth cell after
      the first, then the byte's two digits and a space, or three spaces
      past the end of a short chunk. */
  function Cell(chunk: seq<byte>, i: nat): (s: string)
    ensures |s| == 3 + (if i > 0 && i % 4 == 0 then 2 else 0)
  {
    (if i > 0 && i % 4 == 0 then "| " else "")
      + (if i < |chunk| then Hex2(chunk[i]) + " " else "   ")
  }

  /** The first `n` cells. */
  function Cells(chunk: seq<byte>, n: nat): string {
    if n == 0 then "" else Cells(chunk, n - 1) + Cell(chunk, n - 1)
  }

  /** The whole hex column of a line: all sixteen cells. */
  function HexColumn(chunk: seq<byte>): string {
    Cells(chunk, ChunkSize)
  }

  lemma {:induction false} CellsHaveNoNewline(chunk: seq<byte>, n: nat)
    ensures '\n' !in Cells(chunk, n)
  {
    if n > 0 {
      CellsHaveNoNewline(chunk, n - 1);
      var i := n - 1;
      if i < |chunk| {
        HexHasNoNewline(Hex2(chunk[i]));
      }
    }
  }

  /** Where cell `i`'s digits start: three characters per earlier cell and
      two per separator up to and including its own. */
  function CellOffset(i: nat): nat {
    3 * i + 2 * (i / 4)
  }

  lemma {:induction false} CellsLength(chunk: seq<byte>, n: nat)
    ensures |Cells(chunk, n)| == (if n == 0 then 0 else 3 * n + 2 * ((n - 1) / 4))
  {
    if n > 1 {
      CellsLength(chunk, n - 1);
      assert |Cell(chunk, n - 1)| == 3 + (if (n - 1) % 4 == 0 then 2 else 0);
      assert (n - 1) / 4 == (n - 2) / 4 + (if (n - 1) % 4 == 0 then 1 else 0);
    }
  }

  /** The hex column is 54 characters whatever the chunk's length: short
      chunks are padded so the character column lines up. */
  lemma {:induction false} HexColumnLength(chunk: seq<byte>)
    ensures |HexColumn(chunk)| == 54
  {
    CellsLength(chunk, ChunkSize);
  }

  lemma {:induction false} CellsPrefix(chunk: seq<byte>, m: nat, n: nat)
    requires m <= n
    ensures Cells(chunk, m) <= Cells(chunk, n)
    decreases n
  {
    if m < n {
      CellsPrefix(chunk, m, n - 1);
    }
  }

  /** A piece of a prefix of `whole` sits at its place in `whole`. */
  lemma {:induction false} PieceOfPrefix(whole: string, pre: string, piece: string)
    requires pre + piece <= whole
    ensures whole[|pre|..|pre| + |piece|] == piece
  {
    assert whole[|pre|..|pre| + |piece|] == (pre + piece)[|pre|..];
  }

  /** The first `i` cells end where cell `i` (with its separator) starts. */
  lemma {:induction false} CellStart(i: nat)
    ensures CellOffset(i) - (if i > 0 && i % 4 == 0 then 2 else 0) == (if i == 0 then 0 else 3 * i + 2 * ((i - 1) / 4))
  {
    if i > 0 {
      assert i / 4 == (i - 1) / 4 + (if i % 4 == 0 then 1 else 0);
    }
  }

  /** Cell `i` sits at its place in the column. */
  lemma {:induction false} CellAt(chunk: seq<byte>, i: nat)
    requires i < ChunkSize
    ensures var col := HexColumn(chunk);
      var sep := if i > 0 && i % 4 == 0 then 2 else 0;
      CellOffset(i) + 3 <= |col| && col[CellOffset(i) - sep..CellOffset(i) + 3] == Cell(chunk, i)
  {
    CellsPrefix(chunk, i + 1, ChunkSize);
    CellsLength(chunk, i);
    CellStart(i);
    PieceOfPrefix(HexColumn(chunk), Cells(chunk, i), Cell(chunk, i));
  }

  /** The hex column can be read back: the two characters at cell `i`'s
      offset are the hex digits of byte `i`, and a cell past the end of a
      short chunk is blank. */
  lemma {:induction false} HexColumnDecodes(chunk: seq<byte>, i: nat)
    requires i < ChunkSize
    ensures var col := HexColumn(chunk);
      CellOffset(i) + 3 <= |col|
      && (i < |chunk| ==> col[CellOffset(i)..CellOffset(i) + 2] == Hex2(chunk[i])
                          && ParseHex(col[CellOffset(i)..CellOffset(i) + 2]) == chunk[i])
      && (i >= |chunk| ==> col[CellOffset(i)..CellOffset(i) + 3] == "   ")
  {
    CellAt(chunk, i);
    var col := HexColumn(chunk);
    var sep := if i > 0 && i % 4 == 0 then 2 else 0;
    var c := Cell(chunk, i);
    assert col[CellOffset(i)..CellOffset(i) + 3] == c[sep..];
    if i < |chunk| {
      assert c[sep..] == Hex2(chunk[i]) + " ";
      assert col[CellOffset(i)..CellOffset(i) + 2] == col[CellOffset(i)..CellOffset(i) + 3][..2];
    }
  }

  /** `u8::is_ascii_graphic`: `!` through `~`. */
  predicate IsGraphic(b: byte) {
    0x21 <= b <= 0x7E
  }

  /** The character column: each byte as its character when graphic, `.`
      otherwise. */
  function TextColumn(chunk: seq<byte>): (s: string)
    ensures |s| == |chunk|
  {
    if |chunk| == 0 then "" else [Shown(chunk[0])] + TextColumn(chunk[1..])
  }

  /** How one byte appears in the character column. */
  function Shown(b: byte): (c: char)
    ensures c == '.' || 0x21 <= c as int <= 0x7E
  {
    if IsGraphic(b) then b as char else '.'
  }

  /** The character column shows exactly the graphic bytes and a `.` for
      every other one; a `.` byte and an unprintable byte look alike. */
  lemma {:induction false} TextColumnShows(chunk: seq<byte>, i: nat)
    requires i < |chunk|
    ensures IsGraphic(chunk[i]) ==> TextColumn(chunk)[i] as int == chunk[i]
    ensures TextColumn(chunk)[i] != '.' ==> IsGraphic(chunk[i]) && TextColumn(chunk)[i] as int == chunk[i]
  {
    TextColumnAt(chunk, i);
  }

  lemma {:induction false} TextColumnAt(chunk: seq<byte>, i: nat)
    requires i < |chunk|
    ensures TextColumn(chunk)[i] == Shown(chunk[i])
  {
    if i > 0 {
      TextColumnAt(chunk[1..], i - 1);
    }
  }

  lemma {:induction false} TextHasNoNewline(chunk: seq<byte>)
    ensures '\n' !in TextColumn(chunk)
  {
    if |chunk| > 0 {
      TextHasNoNewline(chunk[1..]);
    }
  }

  // ---------------------------------------------------------------------
  // Lines and the whole dump

  /** A rendered line: newline-terminated, with no other newline. */
  predicate IsLine(s: string) {
    |s| > 0 && s[|s| - 1] == '\n' && '\n' !in s[..|s| - 1]
  }

  /** One line: the chunk's offset in 8 hex digits, `": "`, the hex column,
      a space, the character column and a newline. */
  function Line(index: nat, chunk: seq<byte>): (s: string)
    ensures IsLine(s)
  {
    var head := Hex(index * ChunkSize, 8) + ": " + HexColumn(chunk) + " " + TextColumn(chunk);
    HexHasNoNewline(Hex(index * ChunkSize, 8));
    CellsHaveNoNewline(chunk, ChunkSize);
    TextHasNoNewline(chunk);
    assert (head + "\n")[..|head|] == head;
    head + "\n"
  }

  /** `bytes.chunks(16)`: consecutive 16-byte pieces, the last one shorter
      when the length is not a multiple of 16. */
  function Chunks(bytes: seq<byte>): seq<seq<byte>>
    decreases |bytes|
  {
    if |bytes| == 0 then []
    else if |bytes| <= ChunkSize then [bytes]
    else [bytes[..ChunkSize]] + Chunks(bytes[ChunkSize..])
  }

  lemma {:induction false} ChunkCount(bytes: seq<byte>)
    ensures |Chunks(bytes)| == (|bytes| + ChunkSize - 1) / ChunkSize
    decreases |bytes|
  {
    if |bytes| > ChunkSize {
      ChunkCount(bytes[ChunkSize..]);
    }
  }

  function ConcatBytes(cs: seq<seq<byte>>): seq<byte> {
    if |cs| == 0 then [] else cs[0] + ConcatBytes(cs[1..])
  }

  /** There are `ceil(n / 16)` chunks of `n` bytes; put back together they
      are the bytes; none is empty and only the last may be short. */
  lemma {:induction false} ChunksPartition(bytes: seq<byte>)
    ensures |Chunks(bytes)| == (|bytes| + ChunkSize - 1) / ChunkSize
    ensures ConcatBytes(Chunks(bytes)) == bytes
    ensures forall i :: 0 <= i < |Chunks(bytes)| ==> 0 < |Chunks(bytes)[i]| <= ChunkSize
    ensures forall i :: 0 <= i < |Chunks(bytes)| - 1 ==> |Chunks(bytes)[i]| == ChunkSize
    decreases |bytes|
  {
    if |bytes| > ChunkSize {
      ChunksPartition(bytes[ChunkSize..]);
      ChunkCount(bytes);
      var cs := Chunks(bytes);
      assert cs[1..] == Chunks(bytes[ChunkSize..]);
      assert forall i :: 1 <= i < |cs| ==> cs[i] == cs[1..][i - 1];
      assert bytes == bytes[..ChunkSize] + bytes[ChunkSize..];
    } else if |bytes| > 0 {
      assert Chunks(bytes)[1..] == [];
    }
  }

  /** The lines `render` gives `chunks`, numbered from `index`, stopping
      with `...` once `maxLine` lines are out. */
  function Dump(chunks: seq<seq<byte>>, index: nat, maxLine: nat, render: (nat, seq<byte>) -> string): string
    decreases |chunks|
  {
    if |chunks| == 0 then ""
    else if index >= maxLine then "..."
    else render(index, chunks[0]) + Dump(chunks[1..], index + 1, maxLine, render)
  }

  /** `dump_bytes`. */
  function DumpBytes(bytes: seq<byte>, maxLine: nat): string {
    Dump(Chunks(bytes), 0, maxLine, Line)
  }

  /** Every rendering is a line. */
  ghost predicate RendersLines(render: (nat, seq<byte>) -> string) {
    forall i, c :: IsLine(render(i, c))
  }

  lemma {:induction false} LineRendersLines()
    ensures RendersLines(Line)
  {
  }

  /** The number of lines out of `chunks` chunks from `index` on. */
  function LinesShown(chunks: nat, index: nat, maxLine: nat): nat {
    if index >= maxLine then 0 else if chunks <= maxLine - index then chunks else maxLine - index
  }

  lemma {:induction false} DumpNewlines(chunks: seq<seq<byte>>, index: nat, maxLine: nat, render: (nat, seq<byte>) -> string)
    requires RendersLines(render)
    ensures multiset(Dump(chunks, index, maxLine, render))['\n'] == LinesShown(|chunks|, index, maxLine)
    decreases |chunks|
  {
    if |chunks| > 0 && index < maxLine {
      DumpNewlines(chunks[1..], index + 1, maxLine, render);
      var l := render(index, chunks[0]);
      assert IsLine(l);
      assert l == l[..|l| - 1] + ['\n'];
      assert multiset(l)['\n'] == 1;
    }
  }

  /** The dump has one newline-terminated line per chunk, up to `maxLine`
      of them. */
  lemma {:induction false} DumpLineCount(bytes: seq<byte>, maxLine: nat)
    ensures var n := (|bytes| + ChunkSize - 1) / ChunkSize;
      multiset(DumpBytes(bytes, maxLine))['\n'] == (if n <= maxLine then n else maxLine)
  {
    LineRendersLines();
    ChunkCount(bytes);
    DumpNewlines(Chunks(bytes), 0, maxLine, Line);
  }

  lemma {:induction false} DumpEnding(chunks: seq<seq<byte>>, index: nat, maxLine: nat, render: (nat, seq<byte>) -> string)
    requires RendersLines(render) && index <= maxLine
    ensures var d := Dump(chunks, index, maxLine, render);
      (index + |chunks| > maxLine ==> EndsWith(d, "..."))
      && (index + |chunks| <= maxLine ==> d == "" || d[|d| - 1] == '\n')
    decreases |chunks|
  {
    if |chunks| > 0 && index < maxLine {
      DumpEnding(chunks[1..], index + 1, maxLine, render);
      var l := render(index, chunks[0]);
      assert IsLine(l);
      var rest := Dump(chunks[1..], index + 1, maxLine, render);
      assert Dump(chunks, index, maxLine, render) == l + rest;
      if rest == "" {
        assert l + rest == l;
      } else if index + |chunks| > maxLine {
        assert (l + rest)[|l + rest| - 3..] == rest[|rest| - 3..];
      } else {
        assert (l + rest)[|l + rest| - 1] == rest[|rest| - 1];
      }
    }
  }

  /** The dump is cut short exactly when there are more than `maxLine`
      chunks: it then ends with `...`, and otherwise with the last line's
      newline (or is empty). */
  lemma {:induction false} DumpTruncation(bytes: seq<byte>, maxLine: nat)
    ensures var n := (|bytes| + ChunkSize - 1) / ChunkSize;
      var d := DumpBytes(bytes, maxLine);
      (n > maxLine ==> EndsWith(d, "...")) && (n <= maxLine ==> d == "" || d[|d| - 1] == '\n')
  {
    LineRendersLines();
    ChunkCount(bytes);
    DumpEnding(Chunks(bytes), 0, maxLine, Line);
  }

  /** An empty payload dumps to nothing, and any payload with a zero line
      limit to just `...`. */
  lemma {:induction false} DumpEdges(bytes: seq<byte>, maxLine: nat)
    ensures DumpBytes([], maxLine) == ""
    ensures |bytes| > 0 ==> DumpBytes(bytes, 0) == "..."
  {
  }

  /** Below the limit the dump is the lines of the first `k` chunks followed
      by the dump of the rest. */
  lemma {:induction false} DumpSplit(chunks: seq<seq<byte>>, index: nat, maxLine: nat, render: (nat, seq<byte>) -> string, k: nat)
    requires k <= |chunks| && index + k <= maxLine
    ensures Dump(chunks, index, maxLine, render)
         == Dump(chunks[..k], index, maxLine, render) + Dump(chunks[k..], index + k, maxLine, render)
    decreases k
  {
    if k > 0 {
      DumpSplit(chunks[1..], index + 1, maxLine, render, k - 1);
      assert chunks[1..][..k - 1] == chunks[..k][1..];
      assert chunks[1..][k - 1..] == chunks[k..];
    } else {
      assert chunks[..0] == [];
      assert chunks[0..] == chunks;
    }
  }

  /** Line `k` of a dump below the limit follows the earlier lines and is
      chunk `k` rendered as line `k`. */
  lemma {:induction false} RenderedAt(chunks: seq<seq<byte>>, maxLine: nat, render: (nat, seq<byte>) -> string, k: nat)
    requires k < |chunks| && k < maxLine
    ensures var before := Dump(chunks[..k], 0, maxLine, render);
      var l := render(k, chunks[k]);
      var d := Dump(chunks, 0, maxLine, render);
      |before| + |l| <= |d| && d[|before|..|before| + |l|] == l
  {
    DumpSplit(chunks, 0, maxLine, render, k);
    var l := render(k, chunks[k]);
    assert chunks[k..][1..] == chunks[k + 1..];
    assert Dump(chunks[k..], k, maxLine, render) == l + Dump(chunks[k + 1..], k + 1, maxLine, render);
  }

  /** Each line can be read back: its first eight characters are the hex
      offset `16 * index` when that fits in eight digits, then `": "`, and
      the character column starts after the 54-character hex column and a
      space. */
  lemma {:induction false} LineLayout(index: nat, chunk: seq<byte>)
    requires index * ChunkSize < Pow16(8)
    ensures var l := Line(index, chunk);
      |l| == 8 + 2 + 54 + 1 + |chunk| + 1
      && l[..8] == Hex(index * ChunkSize, 8) && ParseHex(l[..8]) == index * ChunkSize
      && l[8..10] == ": " && l[10..64] == HexColumn(chunk) && l[64] == ' '
      && l[65..65 + |chunk|] == TextColumn(chunk)
  {
    var off := Hex(index * ChunkSize, 8);
    HexWidth(index * ChunkSize, 8);
    HexRoundTrip(index * ChunkSize, 8);
    HexColumnLength(chunk);
    var l := Line(index, chunk);
    assert l == off + ": " + HexColumn(chunk) + " " + TextColumn(chunk) + "\n";
    assert l[..8] == off;
  }

  // ---------------------------------------------------------------------
  // The loop as written

  /** The hex column built cell by cell, as the inner loop does. */
  method HexColumnLoop(chunk: seq<byte>) returns (cells: string)
    ensures cells == HexColumn(chunk)
  {
    cells := "";
    var i := 0;
    while i < ChunkSize
      invariant 0 <= i <= ChunkSize
      invariant cells == Cells(chunk, i)
    {
      if i > 0 && i % 4 == 0 {
        cells := cells + "| ";
      }
      if i < |chunk| {
        cells := cells + (Hex2(chunk[i]) + " ");
      } else {
        cells := cells + "   ";
      }
      i := i + 1;
    }
  }

  lemma {:induction false} DumpStep(chunks: seq<seq<byte>>, index: nat, maxLine: nat, render: (nat, seq<byte>) -> string)
    requires index < |chunks| && index < maxLine
    ensures Dump(chunks[index..], index, maxLine, render)
         == render(index, chunks[index]) + Dump(chunks[index + 1..], index + 1, maxLine, render)
  {
    assert chunks[index..][1..] == chunks[index + 1..];
  }

  /** One line as the loop body builds it: offset, hex cells, characters. */
  method LineLoop(index: nat, chunk: seq<byte>) returns (line: string)
    ensures line == Line(index, chunk)
  {
    var cells := HexColumnLoop(chunk);
    line := Hex(index * ChunkSize, 8) + ": " + cells + " " + TextColumn(chunk) + "\n";
  }

  /** The loop of `dump_bytes` over the chunks: one rendered line per
      chunk, and `...` in place of the first line past the limit. */
  method DumpLoop(chunks: seq<seq<byte>>, maxLine: nat, render: (nat, seq<byte>) -> string) returns (out: string)
    ensures out == Dump(chunks, 0, maxLine, render)
  {
    out := "";
    var lineIdx := 0;
    while lineIdx < |chunks|
      invariant 0 <= lineIdx <= |chunks|
      invariant lineIdx <= maxLine
      invariant out + Dump(chunks[lineIdx..], lineIdx, maxLine, render) == Dump(chunks, 0, maxLine, render)
    {
      if lineIdx >= maxLine {
        out := out + "...";
        break;
      }
      var line := render(lineIdx, chunks[lineIdx]);
      DumpStep(chunks, lineIdx, maxLine, render);
      out := out + line;
      lineIdx := lineIdx + 1;
    }
  }

  /** `dump_bytes` as the source writes it: the chunk loop with each line
      built as `LineLoop` builds it. */
  method DumpBytesLoop(bytes: seq<byte>, maxLine: nat) returns (out: string)
    ensures out == DumpBytes(bytes, maxLine)
  {
    out := DumpLoop(Chunks(bytes), maxLine, Line);
  }
}
