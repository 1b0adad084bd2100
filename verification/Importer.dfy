/**
 Both ends of the image importer's stream: the child that prints decoded images, and the parent that reads them
 back through a pipe which may deliver any number of bytes at a time.
 */
module Importer {
  import opened Bmp
  import opened Bytes
  import opened ImportFormat
  import opened Wrappers

  const BUFFER_BYTES: nat := 16 * 1024

  /** What one poll of the pipe yields; `Ready(n)` lets the following read return up to `n` bytes, at least one. */
  datatype Event = Ready(chunk: nat) | Interrupted | Expired | Failed

  /** Failures that come from the pipe and not from what it carries. */
  predicate Transport<T>(r: Import<T>) { r.Err? && (r.error == TimedOut || r.error == Broken) }

  /** Unless the pipe failed, `r` is what the specification says and `rest` is what it leaves. */
  ghost predicate Follows<T>(r: Import<T>, spec: Import<(T, seq<byte>)>, rest: seq<byte>) {
    Transport(r) || match r { case Ok(v) => spec == Ok((v, rest)) case Err(e) => spec == Err(e) }
  }

  class Pipe {
    const bytes: seq<byte>
    const events: seq<Event>
    var position: nat
    var polls: nat

    ghost predicate Valid()
      reads this
    {
      position <= |bytes| && polls <= |events|
    }

    /** A pipe that keeps delivering before the deadline. */
    ghost predicate Steady()
      reads this
    {
      Valid() && polls <= position && |bytes| < |events| && forall i :: 0 <= i < |events| ==> events[i].Ready?
    }

    function Rest(): seq<byte>
      requires Valid()
      reads this
    {
      bytes[position..]
    }

    constructor (bytes: seq<byte>, events: seq<Event>)
      ensures Valid() && Rest() == bytes && this.bytes == bytes && this.events == events
      ensures position == 0 && polls == 0
    {
      this.bytes, this.events, position, polls := bytes, events, 0, 0;
    }

    /** Exactly `n` bytes, however the pipe splits them. */
    method ReadExact(n: nat) returns (r: Import<seq<byte>>)
      requires Valid()
      modifies this
      ensures Valid() && Follows(r, Split(old(Rest()), n, Premature), Rest())
      ensures old(Steady()) ==> !Transport(r) && (r.Ok? ==> Steady())
    {
      var got: seq<byte> := [];
      while |got| < n
        invariant Valid() && |got| <= n && position == old(position) + |got|
        invariant got == bytes[old(position)..position]
        invariant old(Steady()) ==> Steady()
        decreases |events| - polls
      {
        if polls == |events| { return Err(TimedOut); }
        var event := events[polls];
        polls := polls + 1;
        match event {
          case Expired => return Err(TimedOut);
          case Failed => return Err(Broken);
          case Interrupted =>
          case Ready(chunk) =>
            if position == |bytes| { return Err(Premature); }
            var size := Nearest(chunk, n - |got|, |bytes| - position);
            got := got + bytes[position..position + size];
            position := position + size;
        }
      }
      assert got == old(Rest())[..n];
      return Ok(got);
    }

    static function Nearest(chunk: nat, wanted: nat, available: nat): (size: nat)
      requires wanted > 0 && available > 0
      ensures 0 < size <= wanted && size <= available
    {
      var most := if wanted < available then wanted else available;
      if chunk == 0 then 1 else if chunk < most then chunk else most
    }

    method ReadNumber(width: nat) returns (r: Import<nat>)
      requires Valid()
      modifies this
      ensures Valid() && Follows(r, Number(old(Rest()), width, Premature), Rest())
      ensures old(Steady()) ==> !Transport(r) && (r.Ok? ==> Steady())
    {
      var value :- ReadExact(width);
      return Ok(FromLittleEndian(value));
    }

    /** After the trailer the stream must end. */
    method ExpectEof() returns (r: Import<()>)
      requires Valid()
      modifies this
      ensures Valid() && (Transport(r) || r == Check(old(Rest()) == [], Trailing))
      ensures old(Steady()) ==> !Transport(r)
    {
      if polls == |events| { return Err(TimedOut); }
      var event := events[polls];
      polls := polls + 1;
      match event {
        case Expired => return Err(TimedOut);
        case Interrupted => return Err(TimedOut);
        case Failed => return Err(Broken);
        case Ready(_) => return Check(position == |bytes|, Trailing);
      }
    }
  }

  /** The private staging directory: finished frames in order, and the part file of the frame being received. */
  class Staging {
    var frames: seq<seq<byte>>
    var part: Option<seq<byte>>

    constructor ()
      ensures frames == [] && part == None
    {
      frames, part := [], None;
    }
  }

  method ReadMetadata(pipe: Pipe, expected: nat) returns (r: Import<Metadata>)
    requires pipe.Valid()
    modifies pipe
    ensures pipe.Valid() && Follows(r, ParseMetadata(old(pipe.Rest()), expected), pipe.Rest())
    ensures old(pipe.Steady()) ==> !Transport(r) && (r.Ok? ==> pipe.Steady())
  {
    hide Number;
    var index :- pipe.ReadNumber(4);
    var width :- pipe.ReadNumber(4);
    var height :- pipe.ReadNumber(4);
    var length :- pipe.ReadNumber(8);
    var _ :- CheckMetadata(index, expected, width, height, length);
    return Ok(Metadata(width, height, length));
  }

  /** A frame is copied through a fixed buffer into a part file and renamed only when complete. */
  method WriteStagedFrame(pipe: Pipe, staging: Staging, m: Metadata) returns (r: Import<seq<byte>>)
    requires pipe.Valid() && m.length >= HEADER_BYTES
    modifies pipe, staging
    ensures pipe.Valid() && Follows(r, ParseBitmap(old(pipe.Rest()), m.width, m.height, m.length), pipe.Rest())
    ensures old(pipe.Steady()) ==> !Transport(r) && (r.Ok? ==> pipe.Steady())
    ensures r.Ok? ==> staging.frames == old(staging.frames) + [r.value] && staging.part == None
    ensures r.Err? ==> staging.frames == old(staging.frames)
  {
    hide HeaderValid;
    staging.part := Some([]);
    var header :- pipe.ReadExact(HEADER_BYTES);
    var _ :- Check(HeaderValid(header, m.width, m.height, m.length), BadHeader);
    staging.part := Some(header);
    var copied := CopyBody(pipe, staging, header, m.length - HEADER_BYTES);
    if copied.Err? { return Err(copied.error); }
    var file := header + copied.value;
    staging.frames, staging.part := staging.frames + [file], None;
    return Ok(file);
  }

  lemma Regrouped(a: seq<byte>, b: seq<byte>, c: seq<byte>)
    ensures (a + b) + c == a + (b + c)
  {}

  /** Buffered copying reads the same bytes as one read of the whole length. */
  method CopyBody(pipe: Pipe, staging: Staging, header: seq<byte>, length: nat) returns (r: Import<seq<byte>>)
    requires pipe.Valid()
    modifies pipe, staging
    ensures pipe.Valid() && Follows(r, Split(old(pipe.Rest()), length, Premature), pipe.Rest())
    ensures old(pipe.Steady()) ==> !Transport(r) && (r.Ok? ==> pipe.Steady())
    ensures staging.frames == old(staging.frames)
    ensures r.Ok? ==> staging.part == Some(header + r.value)
  {
    hide Pipe.Steady;
    var remaining: nat := length;
    var body: seq<byte> := [];
    assert header + body == header && old(pipe.Rest()) == body + pipe.Rest();
    staging.part := Some(header);
    while remaining != 0
      invariant pipe.Valid() && |body| + remaining == length && staging.part == Some(header + body)
      invariant staging.frames == old(staging.frames)
      invariant old(pipe.Rest()) == body + pipe.Rest()
      invariant old(pipe.Steady()) ==> pipe.Steady()
      decreases remaining
    {
      var size := if remaining < BUFFER_BYTES then remaining else BUFFER_BYTES;
      ghost var before := pipe.Rest();
      var chunk :- pipe.ReadExact(size);
      Rejoined(before, size);
      Regrouped(body, chunk, pipe.Rest());
      body := body + chunk;
      staging.part := Some(header + body);
      remaining := remaining - size;
    }
    SplitAppended(body, pipe.Rest(), Premature);
    return Ok(body);
  }

  method ReceiveFrame(pipe: Pipe, staging: Staging, expected: nat, total: nat) returns (r: Import<Frame>)
    requires pipe.Valid()
    modifies pipe, staging
    ensures pipe.Valid() && Follows(r, ParseFrame(old(pipe.Rest()), expected, total), pipe.Rest())
    ensures old(pipe.Steady()) ==> !Transport(r) && (r.Ok? ==> pipe.Steady())
    ensures r.Ok? ==> staging.frames == old(staging.frames) + [r.value.bmp]
  {
    hide ParseBitmap;
    var m :- ReadMetadata(pipe, expected);
    assert m.length >= HEADER_BYTES;
    hide ParseMetadata;
    var _ :- Check(total + m.length <= MAX_TOTAL_OUTPUT_BYTES, OverLimit);
    var bmp :- WriteStagedFrame(pipe, staging, m);
    return Ok(Frame(m.width, m.height, bmp));
  }

  function Bitmaps(fs: seq<Frame>): seq<seq<byte>> { seq(|fs|, i requires 0 <= i < |fs| => fs[i].bmp) }

  method ReceiveFrames(pipe: Pipe, staging: Staging, count: nat) returns (r: Import<seq<Frame>>)
    requires pipe.Valid() && staging.frames == []
    modifies pipe, staging
    ensures pipe.Valid() && Follows(r, ParseFrames(old(pipe.Rest()), count, []), pipe.Rest())
    ensures old(pipe.Steady()) ==> !Transport(r) && (r.Ok? ==> pipe.Steady())
    ensures r.Ok? ==> staging.frames == Bitmaps(r.value)
  {
    hide ParseFrame;
    var frames: seq<Frame> := [];
    var total := 0;
    while |frames| < count
      invariant pipe.Valid() && |frames| <= count && total == Total(frames)
      invariant ParseFrames(old(pipe.Rest()), count, []) == ParseFrames(pipe.Rest(), count, frames)
      invariant old(pipe.Steady()) ==> pipe.Steady()
      invariant staging.frames == Bitmaps(frames)
    {
      var f :- ReceiveFrame(pipe, staging, |frames|, total);
      TotalStep(frames, f);
      total := total + |f.bmp|;
      assert Bitmaps(frames + [f]) == Bitmaps(frames) + [f.bmp];
      frames := frames + [f];
    }
    return Ok(frames);
  }

  /** Unless the pipe itself fails, the outcome is the specification's, for every way of splitting the stream. */
  method ConsumeFramedStream(pipe: Pipe, staging: Staging) returns (r: Import<nat>)
    requires pipe.Valid() && staging.frames == []
    modifies pipe, staging
    ensures Transport(r) || match Parse(old(pipe.Rest())) {
      case Ok(fs) => r == Ok(|fs|) && staging.frames == Bitmaps(fs)
      case Err(e) => r == Err(e)
    }
    ensures old(pipe.Steady()) ==> !Transport(r)
  {
    hide Number, ParseFrames, Bitmaps;
    var magic :- pipe.ReadExact(8);
    var _ :- Check(magic == MAGIC, BadMagic);
    var version :- pipe.ReadNumber(4);
    var _ :- Check(version == VERSION, BadVersion);
    var count :- pipe.ReadNumber(4);
    var _ :- Check(0 < count <= MAX_FILES, BadCount);
    var frames :- ReceiveFrames(pipe, staging, count);
    var trailer :- pipe.ReadExact(8);
    var _ :- Check(trailer == TRAILER, BadTrailer);
    var _ :- pipe.ExpectEof();
    return Ok(|frames|);
  }

  // ----- the child -----

  /** The images a session directory yields. */
  predicate Session(images: seq<Image>) {
    0 < |images| <= MAX_FILES && forall i :: 0 <= i < |images| ==> images[i].Valid()
  }

  ghost function FramesOf(images: seq<Image>): seq<Frame>
    requires Session(images)
  {
    seq(|images|, i requires 0 <= i < |images| => Frame(images[i].width, images[i].height, images[i].Bitmap()))
  }

  /** Every image is within the limits and so is their total. */
  ghost predicate Admitted(images: seq<Image>)
    requires Session(images)
  {
    && (forall i :: 0 <= i < |images| ==> Sized(images[i].width, images[i].height))
    && Total(FramesOf(images)) <= MAX_TOTAL_OUTPUT_BYTES
  }

  method EmitFrame(index: nat, img: Image, output: seq<byte>) returns (r: Import<seq<byte>>)
    requires img.Valid()
    ensures r.Ok? <==> Sized(img.width, img.height)
    ensures r.Ok? ==> r.value == output + PrintFrame(index, Frame(img.width, img.height, img.Bitmap()))
  {
    hide Image.Bitmap, LittleEndian, Sized;
    var written := WriteNormalizedBmp(img.rgb, img.width, img.height);
    if written.Err? { return Err(Oversized); }
    img.BitmapSize();
    var length := BmpLength(img.width, img.height);
    var out := output + LittleEndian(index, 4);
    out := out + LittleEndian(img.width, 4);
    out := out + LittleEndian(img.height, 4);
    out := out + LittleEndian(length, 8);
    return Ok(out + written.value);
  }

  /** No part of `output`, nor all of it, is a stream that the parent accepts. */
  ghost predicate Undeliverable(output: seq<byte>) {
    forall n :: 0 <= n <= |output| ==> Parse(output[..n]).Err?
  }

  lemma StoppedShort(fs: seq<Frame>, count: nat)
    requires ValidFrames(fs) && |fs| < count <= MAX_FILES
    ensures Undeliverable(Printed(fs, count))
  {
    hide ValidFrames, Printed, Parse;
    forall n | 0 <= n <= |Printed(fs, count)| ensures Parse(Printed(fs, count)[..n]).Err? {
      PartialRejected(fs, count, n);
    }
  }

  lemma AdmittedFrame(img: Image)
    requires img.Valid() && Sized(img.width, img.height)
    ensures ValidFrame(Frame(img.width, img.height, img.Bitmap()))
    ensures |img.Bitmap()| == BmpLength(img.width, img.height)
  {
    hide Image.Bitmap, Sized, Header;
    img.BitmapSize();
    HeaderFits(img.width, img.height);
  }

  /** The child prints the whole session or fails; it fails exactly when some limit is exceeded, and then nothing it
      has printed is acceptable. */
  method RunImporter(images: seq<Image>) returns (r: Import<()>, output: seq<byte>)
    requires Session(images)
    ensures r.Ok? <==> Admitted(images)
    ensures r.Ok? ==> output == Print(FramesOf(images))
    ensures r.Err? ==> Undeliverable(output)
  {
    hide Sized, LittleEndian, PrintFrame, PrintFrames, Total, Image.Bitmap, ValidFrame, Undeliverable, Printed, Print;
    ghost var fs := FramesOf(images);
    output := MAGIC + (LittleEndian(VERSION, 4) + LittleEndian(|images|, 4));
    PrintedNothing(fs, |images|);
    var total := 0;
    TotalNothing(fs);
    for i := 0 to |images|
      invariant output == Printed(fs[..i], |images|)
      invariant total == Total(fs[..i]) <= MAX_TOTAL_OUTPUT_BYTES
      invariant forall k :: 0 <= k < i ==> Sized(images[k].width, images[k].height) && ValidFrame(fs[k])
    {
      var img := images[i];
      var length := NormalizedBmpLen(img.width, img.height);
      StoppedShort(fs[..i], |images|);
      if length.Err? { return Err(Oversized), output; }
      AdmittedFrame(img);
      assert fs[..i + 1] == fs[..i] + [fs[i]];
      TotalStep(fs[..i], fs[i]);
      TotalGrows(fs, i + 1);
      if total + length.value > MAX_TOTAL_OUTPUT_BYTES { return Err(OverLimit), output; }
      total := total + length.value;
      PrintedAppend(fs[..i], fs[i], |images|);
      var emitted := EmitFrame(i, img, output);
      output := emitted.value;
    }
    assert fs[..|images|] == fs;
    PrintedWhole(fs);
    return Ok(()), output + TRAILER;
  }

  lemma PrintedNothing(fs: seq<Frame>, count: nat)
    ensures MAGIC + (LittleEndian(VERSION, 4) + LittleEndian(count, 4)) == Printed(fs[..0], count)
  {
    hide LittleEndian;
    assert PrintFrames(fs[..0], 0) == [];
    assert LittleEndian(count, 4) + [] == LittleEndian(count, 4);
  }

  lemma TotalNothing(fs: seq<Frame>)
    ensures Total(fs[..0]) == 0
  {}

  // ----- end to end -----

  /** What the child prints for an admitted session the parent accepts, frame for frame, and each staged bitmap
      unpacks to the pixels of its image. */
  lemma ImportDelivers(images: seq<Image>)
    requires Session(images) && Admitted(images)
    ensures Parse(Print(FramesOf(images))) == Ok(FramesOf(images))
    ensures forall i :: 0 <= i < |images| ==>
      && |Bitmaps(FramesOf(images))[i]| == BmpLength(images[i].width, images[i].height)
      && Unpack(Bitmaps(FramesOf(images))[i], images[i].width, images[i].height) == images[i].rgb
  {
    hide Image.Bitmap, Unpack, Parse, Print, Sized, Total, Header;
    var fs := FramesOf(images);
    forall i | 0 <= i < |images| ensures ValidFrame(fs[i]) {
      AdmittedFrame(images[i]);
    }
    PrintParses(fs, []);
    assert Print(fs) + [] == Print(fs);
    forall i | 0 <= i < |images|
      ensures |Bitmaps(fs)[i]| == BmpLength(images[i].width, images[i].height)
      ensures Unpack(Bitmaps(fs)[i], images[i].width, images[i].height) == images[i].rgb
    {
      UnpackRecovers(images[i]);
    }
  }

  /** What the parent can read of a child that died after printing `sent` bytes. */
  function Delivered(output: seq<byte>, sent: nat): seq<byte> { if sent < |output| then output[..sent] else output }

  lemma OnlyWholeDelivered(images: seq<Image>, sent: nat)
    requires Session(images) && Admitted(images)
    ensures Parse(Delivered(Print(FramesOf(images)), sent)).Ok? <==> sent >= |Print(FramesOf(images))|
  {
    hide Image.Bitmap, Parse, Print, Sized, Total, ValidFrame, Bitmaps;
    var fs := FramesOf(images);
    ImportDelivers(images);
    forall i | 0 <= i < |images| ensures ValidFrame(fs[i]) {
      AdmittedFrame(images[i]);
    }
    PartialRejected(fs, |fs|, sent);
  }

  /** One import, whatever becomes of the child: it may fail on a limit, die after any number of bytes, or exit badly.
      Nothing is reported as staged unless every image of the session was, in order; and an admitted session read
      to its end through a steady pipe always is. */
  method ImportSession(images: seq<Image>, events: seq<Event>, sent: nat, exited: bool, staging: Staging)
    returns (r: Import<nat>)
    requires Session(images) && staging.frames == []
    modifies staging
    ensures r.Ok? ==>
      && Admitted(images) && sent >= |Print(FramesOf(images))| && exited
      && r.value == |images| && staging.frames == Bitmaps(FramesOf(images))
    ensures (&& Admitted(images) && sent >= |Print(FramesOf(images))| && exited
             && |Print(FramesOf(images))| < |events|
             && (forall i :: 0 <= i < |events| ==> events[i].Ready?)) ==> r.Ok?
  {
    hide Bitmaps, Parse, Print, Admitted;
    var printed, output := RunImporter(images);
    var pipe := new Pipe(Delivered(output, sent), events);
    if printed.Ok? {
      ImportDelivers(images);
      OnlyWholeDelivered(images, sent);
    } else {
      assert output[..|output|] == output;
    }
    var count :- ConsumeFramedStream(pipe, staging);
    if !exited { return Err(ChildFailed); }
    return Ok(count);
  }
}
