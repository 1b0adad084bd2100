/**
 The framed stream between the sandboxed image importer and its parent: specification functions for printing and
 parsing, and the proof that they are inverse.
 */
module ImportFormat {
  import opened Bmp
  import opened Bytes
  import opened Wrappers

  const MAGIC: seq<byte> := [0x48, 0x4F, 0x57, 0x59, 0x49, 0x4D, 0x50, 0x31]
  const TRAILER: seq<byte> := [0x44, 0x4F, 0x4E, 0x45, 0x49, 0x4D, 0x50, 0x31]
  const VERSION: nat := 1
  const MAX_FILES: nat := 64
  const MAX_TOTAL_OUTPUT_BYTES: nat := 64 * 1024 * 1024

  datatype ImportError =
    | Premature | BadMagic | BadVersion | BadCount | BadMetadata | Oversized | OverLimit | BadHeader | BadTrailer
    | Trailing | TimedOut | Broken | ChildFailed

  type Import<T> = Result<T, ImportError>

  /** One staged image: announced dimensions and its bitmap. */
  datatype Frame = Frame(width: nat, height: nat, bmp: seq<byte>)

  // ----- printing -----

  function PrintFrame(index: nat, f: Frame): seq<byte> {
    LittleEndian(index, 4)
    + (LittleEndian(f.width, 4) + (LittleEndian(f.height, 4) + (LittleEndian(|f.bmp|, 8) + f.bmp)))
  }

  /** The frames of `fs` from `index` on. */
  function PrintFrames(fs: seq<Frame>, index: nat): seq<byte>
    requires index <= |fs|
    decreases |fs| - index
  {
    if index == |fs| then [] else PrintFrame(index, fs[index]) + PrintFrames(fs, index + 1)
  }

  function Print(fs: seq<Frame>): seq<byte> {
    MAGIC + (LittleEndian(VERSION, 4) + (LittleEndian(|fs|, 4) + (PrintFrames(fs, 0) + TRAILER)))
  }

  // ----- parsing -----

  function Check(ok: bool, e: ImportError): Import<()> { if ok then Ok(()) else Err(e) }

  function CheckMetadata(index: nat, expected: nat, width: nat, height: nat, length: nat): Import<()> {
    if index != expected || width == 0 || height == 0 || width > MAX_WIDTH || height > MAX_HEIGHT then Err(BadMetadata)
    else
      match NormalizedBmpLen(width, height)
      case Ok(n) => Check(n == length, BadMetadata)
      case Err(_) => Err(Oversized)
  }

  /** A bitmap of an announced length, its header checked before its body is read. */
  function ParseBitmap(s: seq<byte>, width: nat, height: nat, length: nat): Import<(seq<byte>, seq<byte>)>
    requires length >= HEADER_BYTES
  {
    var (header, s1) :- Split(s, HEADER_BYTES, Premature);
    var _ :- Check(HeaderValid(header, width, height, length), BadHeader);
    var (body, rest) :- Split(s1, length - HEADER_BYTES, Premature);
    Ok((header + body, rest))
  }

  datatype Metadata = Metadata(width: nat, height: nat, length: nat)

  function ParseMetadata(s: seq<byte>, expected: nat): (r: Import<(Metadata, seq<byte>)>)
    ensures r.Ok? ==> r.value.0.length >= HEADER_BYTES
  {
    var (index, s1) :- Number(s, 4, Premature);
    var (width, s2) :- Number(s1, 4, Premature);
    var (height, s3) :- Number(s2, 4, Premature);
    var (length, s4) :- Number(s3, 8, Premature);
    var _ :- CheckMetadata(index, expected, width, height, length);
    HeaderFits(width, height);
    Ok((Metadata(width, height, length), s4))
  }

  function ParseFrame(s: seq<byte>, expected: nat, total: nat): Import<(Frame, seq<byte>)> {
    var (m, s1) :- ParseMetadata(s, expected);
    var _ :- Check(total + m.length <= MAX_TOTAL_OUTPUT_BYTES, OverLimit);
    var (bmp, rest) :- ParseBitmap(s1, m.width, m.height, m.length);
    Ok((Frame(m.width, m.height, bmp), rest))
  }

  function Total(fs: seq<Frame>): nat {
    if fs == [] then 0 else Total(fs[..|fs| - 1]) + |fs[|fs| - 1].bmp|
  }

  function ParseFrames(s: seq<byte>, count: nat, seen: seq<Frame>): Import<(seq<Frame>, seq<byte>)>
    requires |seen| <= count
    decreases count - |seen|
  {
    if |seen| == count then Ok((seen, s))
    else
      var (f, rest) :- ParseFrame(s, |seen|, Total(seen));
      ParseFrames(rest, count, seen + [f])
  }

  /** The frames still to come, the trailer and the end of the stream. */
  function ParseRest(s: seq<byte>, count: nat, seen: seq<Frame>): Import<seq<Frame>>
    requires |seen| <= count
  {
    var (frames, s4) :- ParseFrames(s, count, seen);
    var (trailer, s5) :- Split(s4, 8, Premature);
    var _ :- Check(trailer == TRAILER, BadTrailer);
    var _ :- Check(s5 == [], Trailing);
    Ok(frames)
  }

  function Parse(s: seq<byte>): Import<seq<Frame>> {
    var (magic, s1) :- Split(s, 8, Premature);
    var _ :- Check(magic == MAGIC, BadMagic);
    var (version, s2) :- Number(s1, 4, Premature);
    var _ :- Check(version == VERSION, BadVersion);
    var (count, s3) :- Number(s2, 4, Premature);
    var _ :- Check(0 < count <= MAX_FILES, BadCount);
    ParseRest(s3, count, [])
  }

  // ----- what a stream may carry -----

  predicate ValidFrame(f: Frame) {
    && Sized(f.width, f.height)
    && |f.bmp| == BmpLength(f.width, f.height) >= HEADER_BYTES
    && f.bmp[..HEADER_BYTES] == Header(f.width, f.height, |f.bmp|)
  }

  ghost predicate ValidFrames(fs: seq<Frame>) {
    (forall i :: 0 <= i < |fs| ==> ValidFrame(fs[i])) && Total(fs) <= MAX_TOTAL_OUTPUT_BYTES
  }

  // ----- pieces -----

  function PrintMetadata(expected: nat, m: Metadata): seq<byte> {
    LittleEndian(expected, 4) + (LittleEndian(m.width, 4) + (LittleEndian(m.height, 4) + LittleEndian(m.length, 8)))
  }

  lemma MetadataReadsBack(expected: nat, m: Metadata, rest: seq<byte>)
    requires expected < MAX_FILES && Sized(m.width, m.height) && m.length == BmpLength(m.width, m.height)
    ensures ParseMetadata(PrintMetadata(expected, m) + rest, expected) == Ok((m, rest))
  {
    hide LittleEndian, Number, BmpLength, Sized, NormalizedBmpLen;
    Ranges();
    LengthFits(m.width, m.height);
    SizedBounds(m.width, m.height);
    var s4 := LittleEndian(m.length, 8) + rest;
    var s3 := LittleEndian(m.height, 4) + s4;
    var s2 := LittleEndian(m.width, 4) + s3;
    assert PrintMetadata(expected, m) + rest == LittleEndian(expected, 4) + s2;
    NumberAppended(expected, 4, s2, Premature);
    NumberAppended(m.width, 4, s3, Premature);
    NumberAppended(m.height, 4, s4, Premature);
    NumberAppended(m.length, 8, rest, Premature);
  }

  lemma SizedBounds(width: nat, height: nat)
    ensures Sized(width, height) ==> 0 < width <= MAX_WIDTH && 0 < height <= MAX_HEIGHT
  {}

  lemma MetadataParsed(s: seq<byte>, expected: nat)
    requires ParseMetadata(s, expected).Ok?
    ensures var (m, rest) := ParseMetadata(s, expected).value;
            && Sized(m.width, m.height) && m.length == BmpLength(m.width, m.height)
            && s == PrintMetadata(expected, m) + rest
  {
    hide LittleEndian, Number, BmpLength, Sized, NormalizedBmpLen;
    NumberParsed(s, 4, Premature);
    var s1 := Number(s, 4, Premature).value.1;
    NumberParsed(s1, 4, Premature);
    var s2 := Number(s1, 4, Premature).value.1;
    NumberParsed(s2, 4, Premature);
    var s3 := Number(s2, 4, Premature).value.1;
    NumberParsed(s3, 8, Premature);
  }

  lemma BitmapReadsBack(f: Frame, rest: seq<byte>)
    requires ValidFrame(f)
    ensures ParseBitmap(f.bmp + rest, f.width, f.height, |f.bmp|) == Ok((f.bmp, rest))
  {
    hide Header, HeaderValid, Sized, BmpLength;
    LengthFits(f.width, f.height);
    var header, body := f.bmp[..HEADER_BYTES], f.bmp[HEADER_BYTES..];
    HeaderExact(header, f.width, f.height, |f.bmp|);
    assert f.bmp + rest == header + (body + rest);
    SplitAppended(header, body + rest, Premature);
    SplitAppended(body, rest, Premature);
    assert header + body == f.bmp;
  }

  lemma BitmapParsed(s: seq<byte>, width: nat, height: nat)
    requires Sized(width, height) && BmpLength(width, height) >= HEADER_BYTES
    requires ParseBitmap(s, width, height, BmpLength(width, height)).Ok?
    ensures var (bmp, rest) := ParseBitmap(s, width, height, BmpLength(width, height)).value;
            ValidFrame(Frame(width, height, bmp)) && s == bmp + rest
  {
    hide Header, HeaderValid, Sized, BmpLength;
    LengthFits(width, height);
    HeaderExact(s[..HEADER_BYTES], width, height, BmpLength(width, height));
  }

  // ----- frames -----

  lemma FrameReadsBack(index: nat, f: Frame, total: nat, rest: seq<byte>)
    requires ValidFrame(f) && index < MAX_FILES && total + |f.bmp| <= MAX_TOTAL_OUTPUT_BYTES
    ensures ParseFrame(PrintFrame(index, f) + rest, index, total) == Ok((f, rest))
  {
    hide LittleEndian, ParseMetadata, ParseBitmap;
    var m := Metadata(f.width, f.height, |f.bmp|);
    MetadataReadsBack(index, m, f.bmp + rest);
    BitmapReadsBack(f, rest);
    assert PrintFrame(index, f) + rest == PrintMetadata(index, m) + (f.bmp + rest);
  }

  lemma FrameParsed(s: seq<byte>, index: nat, total: nat)
    requires ParseFrame(s, index, total).Ok?
    ensures var (f, rest) := ParseFrame(s, index, total).value;
            ValidFrame(f) && total + |f.bmp| <= MAX_TOTAL_OUTPUT_BYTES && s == PrintFrame(index, f) + rest
  {
    hide LittleEndian, ParseMetadata, ParseBitmap, Sized, BmpLength, Header;
    MetadataParsed(s, index);
    var (m, s1) := ParseMetadata(s, index).value;
    BitmapParsed(s1, m.width, m.height);
    var (bmp, rest) := ParseBitmap(s1, m.width, m.height, m.length).value;
    assert PrintMetadata(index, m) + (bmp + rest) == PrintFrame(index, Frame(m.width, m.height, bmp)) + rest;
  }

  lemma {:induction false} TotalGrows(fs: seq<Frame>, index: nat)
    requires index <= |fs|
    ensures Total(fs[..index]) <= Total(fs)
    decreases |fs|
  {
    if index == |fs| {
      assert fs[..index] == fs;
    } else {
      var front := fs[..|fs| - 1];
      TotalGrows(front, index);
      assert front[..index] == fs[..index];
    }
  }

  lemma TotalStep(fs: seq<Frame>, f: Frame)
    ensures Total(fs + [f]) == Total(fs) + |f.bmp|
  {
    assert (fs + [f])[..|fs|] == fs;
  }

  /** Reading printed frames brings the parser to what follows them, whatever the announced count. */
  lemma {:induction false} FramesReadOn(fs: seq<Frame>, index: nat, rest: seq<byte>, count: nat)
    requires ValidFrames(fs) && index <= |fs| <= count <= MAX_FILES
    ensures ParseFrames(PrintFrames(fs, index) + rest, count, fs[..index]) == ParseFrames(rest, count, fs)
    decreases |fs| - index
  {
    hide ParseFrame, PrintFrame, ValidFrame, Total;
    if index == |fs| {
      assert fs[..index] == fs && PrintFrames(fs, index) + rest == rest;
    } else {
      var f, next := fs[index], PrintFrames(fs, index + 1) + rest;
      assert fs[..index + 1] == fs[..index] + [f];
      TotalStep(fs[..index], f);
      TotalGrows(fs, index + 1);
      FrameReadsBack(index, f, Total(fs[..index]), next);
      assert PrintFrames(fs, index) + rest == PrintFrame(index, f) + next;
      FramesReadOn(fs, index + 1, rest, count);
    }
  }

  lemma {:induction false} FramesParsed(s: seq<byte>, count: nat, seen: seq<Frame>)
    requires |seen| <= count && ValidFrames(seen) && ParseFrames(s, count, seen).Ok?
    ensures var (fs, rest) := ParseFrames(s, count, seen).value;
            && |fs| == count && fs[..|seen|] == seen && ValidFrames(fs)
            && s == PrintFrames(fs, |seen|) + rest
    decreases count - |seen|
  {
    hide ParseFrame, PrintFrame, ValidFrame, Total;
    if |seen| < count {
      FrameParsed(s, |seen|, Total(seen));
      var (f, next) := ParseFrame(s, |seen|, Total(seen)).value;
      TotalStep(seen, f);
      FramesParsed(next, count, seen + [f]);
      var (fs, rest) := ParseFrames(s, count, seen).value;
      assert fs[|seen|] == (seen + [f])[|seen|] == f;
      assert fs[..|seen|] == (seen + [f])[..|seen|] == seen;
      assert s == PrintFrame(|seen|, f) + (PrintFrames(fs, |seen| + 1) + rest);
    }
  }

  // ----- streams -----

  /** What a child that announced `count` frames has printed after the frames `fs`. */
  function Printed(fs: seq<Frame>, count: nat): seq<byte> {
    MAGIC + (LittleEndian(VERSION, 4) + (LittleEndian(count, 4) + PrintFrames(fs, 0)))
  }

  lemma PrintedWhole(fs: seq<Frame>)
    ensures Print(fs) == Printed(fs, |fs|) + TRAILER
  {
    hide LittleEndian, PrintFrames;
    var (v, c, p) := (LittleEndian(VERSION, 4), LittleEndian(|fs|, 4), PrintFrames(fs, 0));
    assert MAGIC + (v + (c + (p + TRAILER))) == MAGIC + (v + (c + p)) + TRAILER;
  }

  lemma {:induction false} FramesAppend(fs: seq<Frame>, f: Frame, index: nat)
    requires index <= |fs|
    ensures PrintFrames(fs + [f], index) == PrintFrames(fs, index) + PrintFrame(|fs|, f)
    decreases |fs| - index
  {
    hide PrintFrame;
    if index == |fs| {
      assert PrintFrames(fs + [f], index + 1) == [];
      assert PrintFrame(|fs|, f) + [] == [] + PrintFrame(|fs|, f);
    } else {
      FramesAppend(fs, f, index + 1);
    }
  }

  lemma PrintedAppend(fs: seq<Frame>, f: Frame, count: nat)
    ensures Printed(fs + [f], count) == Printed(fs, count) + PrintFrame(|fs|, f)
  {
    hide LittleEndian, PrintFrames, PrintFrame;
    FramesAppend(fs, f, 0);
    var (v, c, p, q) := (LittleEndian(VERSION, 4), LittleEndian(count, 4), PrintFrames(fs, 0), PrintFrame(|fs|, f));
    assert MAGIC + (v + (c + (p + q))) == MAGIC + (v + (c + p)) + q;
  }

  lemma PrintedReadOn(fs: seq<Frame>, count: nat, rest: seq<byte>)
    requires ValidFrames(fs) && |fs| <= count && 0 < count <= MAX_FILES
    ensures Parse(Printed(fs, count) + rest) == ParseRest(rest, count, fs)
  {
    hide LittleEndian, Number, ParseFrames, PrintFrames, ValidFrames;
    Ranges();
    var s3 := PrintFrames(fs, 0) + rest;
    var s2 := LittleEndian(count, 4) + s3;
    var s1 := LittleEndian(VERSION, 4) + s2;
    assert Printed(fs, count) + rest == MAGIC + s1;
    SplitAppended(MAGIC, s1, Premature);
    NumberAppended(VERSION, 4, s2, Premature);
    NumberAppended(count, 4, s3, Premature);
    FramesReadOn(fs, 0, rest, count);
    assert fs[..0] == [];
  }

  /** Every admissible list of frames survives printing and parsing, and nothing may follow it. */
  lemma PrintParses(fs: seq<Frame>, extra: seq<byte>)
    requires ValidFrames(fs) && 0 < |fs| <= MAX_FILES
    ensures Parse(Print(fs) + extra) == if extra == [] then Ok(fs) else Err(Trailing)
  {
    hide Print, Printed, Parse, ValidFrames;
    PrintedWhole(fs);
    assert Print(fs) + extra == Printed(fs, |fs|) + (TRAILER + extra);
    PrintedReadOn(fs, |fs|, TRAILER + extra);
    SplitAppended(TRAILER, extra, Premature);
  }

  /** A stream cut before all announced frames are there ends prematurely. */
  lemma CutIsPremature(fs: seq<Frame>, count: nat)
    requires ValidFrames(fs) && |fs| < count <= MAX_FILES
    ensures Parse(Printed(fs, count)) == Err(Premature)
  {
    hide Printed, Parse, ValidFrames;
    assert Printed(fs, count) + [] == Printed(fs, count);
    PrintedReadOn(fs, count, []);
  }

  /** No accepted stream can be continued into anything but a stream with trailing bytes. */
  lemma AcceptedIsWhole(s: seq<byte>, extra: seq<byte>)
    requires Parse(s).Ok? && extra != []
    ensures Parse(s + extra) == Err(Trailing)
  {
    hide Print, Parse, ValidFrames;
    ParsePrints(s);
    PrintParses(Parse(s).value, extra);
  }

  lemma CutRejected(s: seq<byte>, n: nat)
    requires n < |s| && Parse(s) != Err(Trailing)
    ensures Parse(s[..n]).Err?
  {
    hide Parse;
    assert s[..n] + s[n..] == s;
    if Parse(s[..n]).Ok? { AcceptedIsWhole(s[..n], s[n..]); }
  }

  /** A child that dies delivers nothing: no strict prefix of a whole stream is accepted, and no prefix at all of one
      that stopped before its last frame. */
  lemma PartialRejected(fs: seq<Frame>, count: nat, n: nat)
    requires ValidFrames(fs) && |fs| <= count && 0 < count <= MAX_FILES
    ensures n < |Print(fs)| && |fs| == count ==> Parse(Print(fs)[..n]).Err?
    ensures n <= |Printed(fs, count)| && |fs| < count ==> Parse(Printed(fs, count)[..n]).Err?
  {
    hide Print, Printed, Parse, ValidFrames;
    if |fs| == count {
      PrintParses(fs, []);
      assert Print(fs) + [] == Print(fs);
      if n < |Print(fs)| { CutRejected(Print(fs), n); }
    } else {
      CutIsPremature(fs, count);
      if n < |Printed(fs, count)| {
        CutRejected(Printed(fs, count), n);
      } else if n == |Printed(fs, count)| {
        assert Printed(fs, count)[..n] == Printed(fs, count);
      }
    }
  }

  /** Every accepted stream is the print of the frames it yields, so nothing is skipped or reordered. */
  lemma ParsePrints(s: seq<byte>)
    requires Parse(s).Ok?
    ensures ValidFrames(Parse(s).value) && 0 < |Parse(s).value| <= MAX_FILES
    ensures s == Print(Parse(s).value)
  {
    hide LittleEndian, Number, ParseFrames, PrintFrames, ValidFrame;
    var s1 := Split(s, 8, Premature).value.1;
    NumberParsed(s1, 4, Premature);
    var s2 := Number(s1, 4, Premature).value.1;
    NumberParsed(s2, 4, Premature);
    var (count, s3) := Number(s2, 4, Premature).value;
    FramesParsed(s3, count, []);
    var (frames, s4) := ParseFrames(s3, count, []).value;
    assert s == MAGIC + s1 && s4 == TRAILER;
  }

  // ----- where every field is -----

  /** Frame number `k` starts at offset `at`. */
  ghost predicate FrameAt(s: seq<byte>, at: nat, k: nat, f: Frame) {
    && Holds(s, at, 4, k)
    && Holds(s, at + 4, 4, f.width)
    && Holds(s, at + 8, 4, f.height)
    && Holds(s, at + 12, 8, |f.bmp|)
    && Within(s, at + 20, f.bmp)
  }

  /** Frame `k` follows the 16-byte head and the frames before it. */
  function FrameStart(fs: seq<Frame>, k: nat): nat
    requires k <= |fs|
  {
    if k == 0 then 16 else FrameStart(fs, k - 1) + 20 + |fs[k - 1].bmp|
  }

  lemma FrameHeld(s: seq<byte>, at: nat, k: nat, f: Frame, rest: seq<byte>)
    requires Within(s, at, PrintFrame(k, f) + rest)
    ensures FrameAt(s, at, k, f) && Within(s, at + 20 + |f.bmp|, rest)
  {
    hide LittleEndian, Holds, Within;
    var s4 := f.bmp + rest;
    var s3 := LittleEndian(|f.bmp|, 8) + s4;
    var s2 := LittleEndian(f.height, 4) + s3;
    var s1 := LittleEndian(f.width, 4) + s2;
    assert PrintFrame(k, f) + rest == LittleEndian(k, 4) + s1;
    FieldWithin(s, at, 4, k, s1);
    FieldWithin(s, at + 4, 4, f.width, s2);
    FieldWithin(s, at + 8, 4, f.height, s3);
    FieldWithin(s, at + 12, 8, |f.bmp|, s4);
    PieceWithin(s, at + 20, f.bmp, rest);
  }

  lemma Associates(a: seq<byte>, b: seq<byte>, c: seq<byte>)
    ensures a + b + c == a + (b + c)
  {}

  lemma {:induction false} FramesHeld(s: seq<byte>, fs: seq<Frame>, index: nat, rest: seq<byte>)
    requires index <= |fs| && Within(s, FrameStart(fs, index), PrintFrames(fs, index) + rest)
    ensures forall k: nat :: index <= k < |fs| ==> FrameAt(s, FrameStart(fs, k), k, fs[k])
    ensures Within(s, FrameStart(fs, |fs|), rest)
    decreases |fs| - index
  {
    hide PrintFrame, FrameAt, Within;
    if index == |fs| {
      assert PrintFrames(fs, index) + rest == rest;
    } else {
      var next := PrintFrames(fs, index + 1) + rest;
      Associates(PrintFrame(index, fs[index]), PrintFrames(fs, index + 1), rest);
      FrameHeld(s, FrameStart(fs, index), index, fs[index], next);
      FramesHeld(s, fs, index + 1, rest);
    }
  }

  lemma {:induction false} FramesLength(fs: seq<Frame>, index: nat)
    requires index <= |fs|
    ensures FrameStart(fs, index) + |PrintFrames(fs, index)| == FrameStart(fs, |fs|)
    decreases |fs| - index
  {
    if index < |fs| { FramesLength(fs, index + 1); }
  }

  /** A printed stream byte by byte: magic, version 1, the count, the numbered frames, the trailer, and no more. */
  lemma StreamLayout(fs: seq<Frame>)
    ensures var (s, end) := (Print(fs), FrameStart(fs, |fs|));
            && Spells(s, 0, "HOWYIMP1") && Holds(s, 8, 4, 1) && Holds(s, 12, 4, |fs|)
            && (forall k: nat :: k < |fs| ==> FrameAt(s, FrameStart(fs, k), k, fs[k]))
            && Spells(s, end, "DONEIMP1") && |s| == end + 8
  {
    hide LittleEndian, Holds, PrintFrames, FrameAt, Within, Spells;
    var s := Print(fs);
    HeadHeld(s, |fs|, PrintFrames(fs, 0) + TRAILER);
    FramesHeld(s, fs, 0, TRAILER);
    FramesLength(fs, 0);
    WordsHeld(s, 0, FrameStart(fs, |fs|));
  }

  lemma HeadHeld(s: seq<byte>, count: nat, rest: seq<byte>)
    requires s == MAGIC + (LittleEndian(1, 4) + (LittleEndian(count, 4) + rest))
    ensures Within(s, 0, MAGIC) && Holds(s, 8, 4, 1) && Holds(s, 12, 4, count) && Within(s, 16, rest)
    ensures |s| == 16 + |rest|
  {
    hide LittleEndian, Holds, Within;
    WholeWithin(s);
    PieceWithin(s, 0, MAGIC, LittleEndian(1, 4) + (LittleEndian(count, 4) + rest));
    FieldWithin(s, 8, 4, 1, LittleEndian(count, 4) + rest);
    FieldWithin(s, 12, 4, count, rest);
  }

  lemma WordsHeld(s: seq<byte>, at: nat, end: nat)
    requires Within(s, at, MAGIC) && Within(s, end, TRAILER)
    ensures Spells(s, at, "HOWYIMP1") && Spells(s, end, "DONEIMP1")
  {
    forall i: nat | i < 8 ensures s[at + i] == MAGIC[i] && s[end + i] == TRAILER[i] {
      assert s[at + i] == s[at..at + 8][i] && s[end + i] == s[end..end + 8][i];
    }
  }
}
