/**
 The canonical payload: specification functions for both directions, the proof that
 they are inverse, and the buffer-filling encoder and offset-advancing decoder that
 implement them.
 */
module PayloadCodec {
  import opened Wrappers
  import opened Bytes
  import opened StorageTypes

  const PAYLOAD: string := "canonical payload"
  const PAYLOAD_VERSION: nat := 1

  /** Bytes that end too early for what they should hold. */
  function Short(format: string): StorageError { InvalidLength(format) }

  // ----- embeddings -----

  function EncodeWords(ws: seq<nat>): (s: seq<byte>)
    ensures |s| == 4 * |ws|
  {
    if ws == [] then [] else LittleEndian(ws[0], 4) + EncodeWords(ws[1..])
  }

  function DecodeWords(s: seq<byte>): (ws: seq<nat>)
    requires |s| % 4 == 0
    ensures |ws| == |s| / 4
  {
    if s == [] then [] else [FromLittleEndian(s[..4])] + DecodeWords(s[4..])
  }

  lemma {:induction false} WordsReadBack(ws: seq<nat>)
    requires forall i :: 0 <= i < |ws| ==> ws[i] < Range(4)
    ensures DecodeWords(EncodeWords(ws)) == ws
  {
    if ws != [] {
      WordsReadBack(ws[1..]);
      ReadsBack(ws[0], 4);
      assert EncodeWords(ws)[..4] == LittleEndian(ws[0], 4) && EncodeWords(ws)[4..] == EncodeWords(ws[1..]);
    }
  }

  lemma {:induction false} WordsWriteBack(s: seq<byte>)
    requires |s| % 4 == 0
    ensures EncodeWords(DecodeWords(s)) == s
    ensures forall i :: 0 <= i < |s| / 4 ==> DecodeWords(s)[i] < Range(4)
  {
    if s != [] {
      WordsWriteBack(s[4..]);
      WritesBack(s[..4]);
      assert s == s[..4] + s[4..];
      assert DecodeWords(s)[1..] == DecodeWords(s[4..]);
    }
  }

  lemma {:induction false} WordsAppend(ws: seq<nat>, w: nat)
    ensures EncodeWords(ws + [w]) == EncodeWords(ws) + LittleEndian(w, 4)
  {
    hide LittleEndian;
    if ws == [] {
      assert ws + [w] == [w] && [w][1..] == [];
    } else {
      WordsAppend(ws[1..], w);
      assert (ws + [w])[1..] == ws[1..] + [w];
    }
  }

  // ----- entries -----

  function EncodeEntry(e: Entry): seq<byte> {
    e.id + (LittleEndian(e.created, 8)
        + (LittleEndian(|e.name|, 2) + (LittleEndian(0, 2) + (e.name + EncodeWords(e.embedding)))))
  }

  function CheckedId(id: seq<byte>, seen: seq<Entry>): Decoded<seq<byte>> {
    if ZeroId(id) then Err(ZeroEnrollmentId)
    else if Enrolled(seen, id) then Err(DuplicateEnrollmentId)
    else Ok(id)
  }

  function CheckedLabelLength(n: nat): Decoded<nat> {
    if n > MAX_LABEL_BYTES then Err(LimitExceeded("label")) else Ok(n)
  }

  function CheckedZero(n: nat, format: string): Decoded<()> {
    if n != 0 then Err(InvalidReserved(format)) else Ok(())
  }

  function CheckedLabel(name: seq<byte>): Decoded<seq<byte>> {
    if Utf8(name) then Ok(name) else Err(InvalidLabelUtf8)
  }

  function CheckedEmbedding(ws: seq<nat>): Decoded<seq<nat>> {
    if forall i :: 0 <= i < |ws| ==> Finite(ws[i]) then Ok(ws) else Err(NonFiniteEmbedding)
  }

  /** One entry at the front of `s`, given the entries already decoded. */
  function DecodeEntry(s: seq<byte>, seen: seq<Entry>): Decoded<(Entry, seq<byte>)> {
    var (rawId, s1) :- Split(s, 16, Short(PAYLOAD));
    var id :- CheckedId(rawId, seen);
    var (created, s2) :- Number(s1, 8, Short(PAYLOAD));
    var (rawLength, s3) :- Number(s2, 2, Short(PAYLOAD));
    var length :- CheckedLabelLength(rawLength);
    var (reserved, s4) :- Number(s3, 2, Short(PAYLOAD));
    var _ :- CheckedZero(reserved, "canonical payload entry");
    var (rawName, s5) :- Split(s4, length, Short(PAYLOAD));
    var name :- CheckedLabel(rawName);
    var (words, s6) :- Split(s5, EMBEDDING_DIMENSION * 4, Short(PAYLOAD));
    var embedding :- CheckedEmbedding(DecodeWords(words));
    Ok((Entry(id, created, name, embedding), s6))
  }

  lemma FiniteInRange(e: Entry)
    requires ValidEntry(e)
    ensures forall i :: 0 <= i < |e.embedding| ==> e.embedding[i] < Range(4)
  {
    forall i | 0 <= i < |e.embedding| ensures e.embedding[i] < Range(4) {
      assert Finite(e.embedding[i]);
    }
  }

  lemma EntryReadsBack(e: Entry, rest: seq<byte>, seen: seq<Entry>)
    requires ValidEntry(e) && !Enrolled(seen, e.id)
    ensures DecodeEntry(EncodeEntry(e) + rest, seen) == Ok((e, rest))
  {
    hide Finite, Utf8, ZeroId;
    Ranges();
    var s6 := EncodeWords(e.embedding) + rest;
    var s5 := e.name + s6;
    var s4 := LittleEndian(0, 2) + s5;
    var s3 := LittleEndian(|e.name|, 2) + s4;
    var s2 := LittleEndian(e.created, 8) + s3;
    assert EncodeEntry(e) + rest == e.id + s2;
    SplitAppended(e.id, s2, Short(PAYLOAD));
    NumberAppended(e.created, 8, s3, Short(PAYLOAD));
    NumberAppended(|e.name|, 2, s4, Short(PAYLOAD));
    NumberAppended(0, 2, s5, Short(PAYLOAD));
    SplitAppended(e.name, s6, Short(PAYLOAD));
    SplitAppended(EncodeWords(e.embedding), rest, Short(PAYLOAD));
    FiniteInRange(e);
    WordsReadBack(e.embedding);
  }

  lemma Regrouped(a: seq<byte>, b: seq<byte>, c: seq<byte>, d: seq<byte>, f: seq<byte>, g: seq<byte>, rest: seq<byte>)
    ensures a + (b + (c + (d + (f + g)))) + rest == a + (b + (c + (d + (f + (g + rest)))))
  {}

  lemma EntryParsed(s: seq<byte>, seen: seq<Entry>)
    requires DecodeEntry(s, seen).Ok?
    ensures var (e, rest) := DecodeEntry(s, seen).value;
            ValidEntry(e) && !Enrolled(seen, e.id) && s == EncodeEntry(e) + rest
  {
    hide Finite, Utf8, ZeroId, LittleEndian, FromLittleEndian, DecodeWords, EncodeWords, Number, Range, Enrolled;
    var (id, s1) := Split(s, 16, Short(PAYLOAD)).value;
    NumberParsed(s1, 8, Short(PAYLOAD));
    var (created, s2) := Number(s1, 8, Short(PAYLOAD)).value;
    NumberParsed(s2, 2, Short(PAYLOAD));
    var (length, s3) := Number(s2, 2, Short(PAYLOAD)).value;
    NumberParsed(s3, 2, Short(PAYLOAD));
    var (_, s4) := Number(s3, 2, Short(PAYLOAD)).value;
    var (name, s5) := Split(s4, length, Short(PAYLOAD)).value;
    var (words, rest) := Split(s5, EMBEDDING_DIMENSION * 4, Short(PAYLOAD)).value;
    WordsWriteBack(words);
    Rejoined(s, 16);
    Rejoined(s4, length);
    Rejoined(s5, EMBEDDING_DIMENSION * 4);
    Regrouped(id, LittleEndian(created, 8), LittleEndian(length, 2), LittleEndian(0, 2), name, words, rest);
  }

  // ----- entry lists -----

  function EncodeEntries(es: seq<Entry>): seq<byte> {
    if es == [] then [] else EncodeEntry(es[0]) + EncodeEntries(es[1..])
  }

  function DecodeEntries(s: seq<byte>, count: nat, seen: seq<Entry>): Decoded<(seq<Entry>, seq<byte>)>
    decreases count
  {
    if count == 0 then Ok((seen, s))
    else
      var (e, rest) :- DecodeEntry(s, seen);
      DecodeEntries(rest, count - 1, seen + [e])
  }

  lemma {:induction false} EntriesReadBack(es: seq<Entry>, rest: seq<byte>, seen: seq<Entry>)
    requires forall i :: 0 <= i < |es| ==> ValidEntry(es[i])
    requires DistinctIds(seen + es)
    ensures DecodeEntries(EncodeEntries(es) + rest, |es|, seen) == Ok((seen + es, rest))
    decreases |es|
  {
    hide ValidEntry, DecodeEntry, EncodeEntry;
    if es == [] {
      assert seen + es == seen && EncodeEntries(es) + rest == rest;
    } else {
      assert (seen + es)[|seen|] == es[0];
      forall i | 0 <= i < |seen| ensures seen[i].id != es[0].id {
        assert (seen + es)[i] == seen[i];
      }
      EntryReadsBack(es[0], EncodeEntries(es[1..]) + rest, seen);
      assert EncodeEntries(es) + rest == EncodeEntry(es[0]) + (EncodeEntries(es[1..]) + rest);
      assert seen + [es[0]] + es[1..] == seen + es;
      EntriesReadBack(es[1..], rest, seen + [es[0]]);
    }
  }

  lemma {:induction false} EntriesParsed(s: seq<byte>, count: nat, seen: seq<Entry>)
    requires DecodeEntries(s, count, seen).Ok? && DistinctIds(seen)
    requires forall i :: 0 <= i < |seen| ==> ValidEntry(seen[i])
    ensures var (es, rest) := DecodeEntries(s, count, seen).value;
            && |es| == |seen| + count && es[..|seen|] == seen && DistinctIds(es)
            && (forall i :: 0 <= i < |es| ==> ValidEntry(es[i]))
            && s == EncodeEntries(es[|seen|..]) + rest
    decreases count
  {
    hide ValidEntry, DecodeEntry, EncodeEntry;
    if count == 0 {
      assert seen[|seen|..] == [];
    } else {
      EntryParsed(s, seen);
      var (e, rest) := DecodeEntry(s, seen).value;
      EntriesParsed(rest, count - 1, seen + [e]);
      var (es, final) := DecodeEntries(s, count, seen).value;
      assert es[..|seen| + 1] == seen + [e];
      assert es[|seen|] == e && es[..|seen|] == (seen + [e])[..|seen|];
      assert es[|seen|..][1..] == es[|seen| + 1..];
      assert EncodeEntries(es[|seen|..]) == EncodeEntry(e) + EncodeEntries(es[|seen| + 1..]);
    }
  }

  lemma {:induction false} EntriesLength(es: seq<Entry>)
    requires forall i :: 0 <= i < |es| ==> ValidEntry(es[i])
    ensures |es| * ENTRY_FIXED_BYTES <= |EncodeEntries(es)| <= |es| * (ENTRY_FIXED_BYTES + MAX_LABEL_BYTES)
  {
    if es != [] {
      assert ValidEntry(es[0]);
      EntriesLength(es[1..]);
    }
  }

  // ----- the payload -----

  function EncodePayload(es: seq<Entry>): seq<byte> {
    LittleEndian(PAYLOAD_VERSION, 2) + (LittleEndian(0, 2) + (LittleEndian(|es|, 4) + EncodeEntries(es)))
  }

  function CheckedVersion(n: nat, expected: nat, format: string): Decoded<()> {
    if n != expected then Err(UnsupportedVersion(format, n)) else Ok(())
  }

  function CheckedCount(n: nat, expected: Option<nat>, remaining: nat): Decoded<nat> {
    if expected.Some? && expected.value != n then Err(EntryCountMismatch)
    else if n > MAX_ENTRIES then Err(LimitExceeded("entry count"))
    else if remaining < n * ENTRY_FIXED_BYTES then Err(InvalidLength(PAYLOAD))
    else Ok(n)
  }

  function CheckedSize(n: nat): Decoded<()> {
    if n > MAX_PLAINTEXT_BYTES then Err(LimitExceeded("canonical plaintext")) else Ok(())
  }

  function CheckedEnd(rest: seq<byte>, format: string): Decoded<()> {
    if rest != [] then Err(InvalidLength(format)) else Ok(())
  }

  /** The checked entry count and the entries after it. */
  function DecodeHead(s: seq<byte>, expected: Option<nat>): Decoded<(nat, seq<byte>)> {
    var (version, s1) :- Number(s, 2, Short(PAYLOAD));
    var _ :- CheckedVersion(version, PAYLOAD_VERSION, PAYLOAD);
    var (reserved, s2) :- Number(s1, 2, Short(PAYLOAD));
    var _ :- CheckedZero(reserved, PAYLOAD);
    var (rawCount, s3) :- Number(s2, 4, Short(PAYLOAD));
    var count :- CheckedCount(rawCount, expected, |s3|);
    Ok((count, s3))
  }

  function DecodePayload(s: seq<byte>, expected: Option<nat>): Decoded<seq<Entry>> {
    var _ :- CheckedSize(|s|);
    var (count, s3) :- DecodeHead(s, expected);
    var (entries, s4) :- DecodeEntries(s3, count, []);
    var _ :- CheckedEnd(s4, PAYLOAD);
    Ok(entries)
  }

  lemma PayloadLength(es: seq<Entry>)
    requires ValidEntries(es)
    ensures PAYLOAD_FIXED_BYTES + |es| * ENTRY_FIXED_BYTES <= |EncodePayload(es)| <= MAX_PLAINTEXT_BYTES
    ensures |EncodePayload(es)| <= PAYLOAD_FIXED_BYTES + |es| * (ENTRY_FIXED_BYTES + MAX_LABEL_BYTES)
  {
    EntriesLength(es);
  }

  /** Decoding undoes encoding for every valid list of entries. */
  lemma PayloadReadsBack(es: seq<Entry>, expected: Option<nat>)
    requires ValidEntries(es) && (expected.Some? ==> expected.value == |es|)
    ensures DecodePayload(EncodePayload(es), expected) == Ok(es)
  {
    hide ValidEntry;
    Ranges();
    PayloadLength(es);
    EntriesLength(es);
    var s3 := EncodeEntries(es);
    NumberAppended(PAYLOAD_VERSION, 2, LittleEndian(0, 2) + (LittleEndian(|es|, 4) + s3), Short(PAYLOAD));
    NumberAppended(0, 2, LittleEndian(|es|, 4) + s3, Short(PAYLOAD));
    NumberAppended(|es|, 4, s3, Short(PAYLOAD));
    assert s3 + [] == s3 && [] + es == es;
    EntriesReadBack(es, [], []);
  }

  /** Every accepted payload is the encoding of the valid entries it decodes to: nothing else is accepted. */
  lemma PayloadCanonical(s: seq<byte>, expected: Option<nat>)
    requires DecodePayload(s, expected).Ok?
    ensures var es := DecodePayload(s, expected).value;
            && ValidEntries(es)
            && s == EncodePayload(es)
            && (expected.Some? ==> |es| == expected.value)
  {
    hide ValidEntry, Number, LittleEndian, Range, EncodeEntries, DecodeEntries;
    NumberParsed(s, 2, Short(PAYLOAD));
    var s1 := Number(s, 2, Short(PAYLOAD)).value.1;
    NumberParsed(s1, 2, Short(PAYLOAD));
    var s2 := Number(s1, 2, Short(PAYLOAD)).value.1;
    NumberParsed(s2, 4, Short(PAYLOAD));
    var (count, s3) := Number(s2, 4, Short(PAYLOAD)).value;
    EntriesParsed(s3, count, []);
    var es := DecodePayload(s, expected).value;
    assert es[0..] == es;
    assert EncodeEntries(es) + [] == EncodeEntries(es);
  }

  /** No payload is the beginning of another. */
  lemma PayloadWhole(es: seq<Entry>, fs: seq<Entry>, extra: seq<byte>)
    requires ValidEntries(es) && ValidEntries(fs) && EncodePayload(es) + extra == EncodePayload(fs)
    ensures extra == [] && es == fs
  {
    hide ValidEntry, EncodePayload, DecodeEntries, EncodeEntries;
    PayloadSplit(es, fs, extra);
    assert [] + es == es && [] + fs == fs && EncodeEntries(fs) + [] == EncodeEntries(fs);
    EntriesReadBack(es, extra, []);
    EntriesReadBack(fs, [], []);
  }

  lemma PayloadSplit(es: seq<Entry>, fs: seq<Entry>, extra: seq<byte>)
    requires |es| <= MAX_ENTRIES && |fs| <= MAX_ENTRIES && EncodePayload(es) + extra == EncodePayload(fs)
    ensures |es| == |fs| && EncodeEntries(es) + extra == EncodeEntries(fs)
  {
    hide LittleEndian, EncodeEntries, EncodePayload;
    Ranges();
    PayloadParts(es, extra);
    PayloadParts(fs, []);
    assert EncodePayload(fs) + [] == EncodePayload(fs) && EncodeEntries(fs) + [] == EncodeEntries(fs);
    ReadsBack(|es|, 4);
    ReadsBack(|fs|, 4);
  }

  lemma PayloadParts(es: seq<Entry>, extra: seq<byte>)
    ensures var s := EncodePayload(es) + extra;
            |s| >= 8 && s[4..8] == LittleEndian(|es|, 4) && s[8..] == EncodeEntries(es) + extra
  {
    hide LittleEndian, EncodeEntries;
  }

  // ----- where every field is -----

  /** The shape the entry types fix: 16 id bytes, 512 floats. */
  predicate Shaped(e: Entry) { |e.id| == 16 && |e.embedding| == EMBEDDING_DIMENSION }

  /** The entry `e` starts at offset `at`: its fields are at fixed distances, the label before the embedding. */
  ghost predicate EntryAt(s: seq<byte>, at: nat, e: Entry) {
    && at + 28 + |e.name| + 2_048 <= |s| && |e.embedding| == 512
    && s[at..at + 16] == e.id
    && Holds(s, at + 16, 8, e.created)
    && Holds(s, at + 24, 2, |e.name|)
    && Holds(s, at + 26, 2, 0)
    && s[at + 28..at + 28 + |e.name|] == e.name
    && forall w: nat :: w < 512 ==> Holds(s, at + 28 + |e.name| + 4 * w, 4, e.embedding[w])
  }

  /** Entry `k` follows the 8-byte head and the entries before it. */
  function EntryStart(es: seq<Entry>, k: nat): nat
    requires k <= |es|
  {
    if k == 0 then 8 else EntryStart(es, k - 1) + 28 + |es[k - 1].name| + 2_048
  }

  lemma {:induction false} WordHeld(s: seq<byte>, at: nat, ws: seq<nat>, w: nat)
    requires Within(s, at, EncodeWords(ws)) && w < |ws|
    ensures Holds(s, at + 4 * w, 4, ws[w])
    decreases w
  {
    hide LittleEndian, Holds, Within;
    FieldWithin(s, at, 4, ws[0], EncodeWords(ws[1..]));
    if w > 0 { WordHeld(s, at + 4, ws[1..], w - 1); }
  }

  lemma EntryHeld(s: seq<byte>, at: nat, e: Entry)
    requires Shaped(e) && Within(s, at, EncodeEntry(e))
    ensures EntryAt(s, at, e)
  {
    hide LittleEndian, EncodeWords, Holds;
    var words := EncodeWords(e.embedding);
    var s4 := LittleEndian(0, 2) + (e.name + words);
    var s3 := LittleEndian(|e.name|, 2) + s4;
    var s2 := LittleEndian(e.created, 8) + s3;
    PieceWithin(s, at, e.id, s2);
    FieldWithin(s, at + 16, 8, e.created, s3);
    FieldWithin(s, at + 24, 2, |e.name|, s4);
    FieldWithin(s, at + 26, 2, 0, e.name + words);
    PieceWithin(s, at + 28, e.name, words);
    forall w: nat | w < 512 ensures Holds(s, at + 28 + |e.name| + 4 * w, 4, e.embedding[w]) {
      WordHeld(s, at + 28 + |e.name|, e.embedding, w);
    }
  }

  lemma {:induction false} EntriesSplit(es: seq<Entry>, k: nat)
    requires k <= |es| && forall i :: 0 <= i < |es| ==> Shaped(es[i])
    ensures EncodeEntries(es) == EncodeEntries(es[..k]) + EncodeEntries(es[k..])
    ensures |EncodeEntries(es[..k])| + 8 == EntryStart(es, k)
  {
    hide EncodeEntry, Shaped;
    if k == 0 {
      assert es[0..] == es;
    } else {
      EntriesSplit(es, k - 1);
      assert es[..k] == es[..k - 1] + [es[k - 1]];
      EntriesAppend(es[..k - 1], es[k - 1]);
      assert es[k - 1..][1..] == es[k..];
      EntryLength(es[k - 1]);
    }
  }

  lemma EntryHeldIn(es: seq<Entry>, k: nat)
    requires k < |es| && forall i :: 0 <= i < |es| ==> Shaped(es[i])
    ensures EntryAt(EncodePayload(es), EntryStart(es, k), es[k])
  {
    hide EncodeEntry, LittleEndian, EntryAt, Shaped;
    var s, before := EncodePayload(es), EncodeEntries(es[..k]);
    EntriesSplit(es, k);
    assert Within(s, 8, before + EncodeEntries(es[k..]));
    PieceWithin(s, 8, before, EncodeEntries(es[k..]));
    assert es[k..][0] == es[k];
    PieceWithin(s, 8 + |before|, EncodeEntry(es[k]), EncodeEntries(es[k..][1..]));
    EntryHeld(s, 8 + |before|, es[k]);
  }

  lemma NoEntries(es: seq<Entry>)
    requires es == []
    ensures EncodeEntries(es) == []
  {}

  /** The payload byte by byte: version 1, a zero field, the count, then the entries one after the other. */
  lemma PayloadLayout(es: seq<Entry>)
    requires forall i :: 0 <= i < |es| ==> Shaped(es[i])
    ensures var s := EncodePayload(es);
            && |s| == EntryStart(es, |es|)
            && Holds(s, 0, 2, 1) && Holds(s, 2, 2, 0) && Holds(s, 4, 4, |es|)
            && forall k: nat :: k < |es| ==> EntryAt(s, EntryStart(es, k), es[k])
  {
    hide EntryAt, LittleEndian, EncodeEntries, Holds, Shaped;
    var s, entries := EncodePayload(es), EncodeEntries(es);
    EntriesSplit(es, |es|);
    assert es[..|es|] == es && EncodeEntries(es[|es|..]) == [] by { NoEntries(es[|es|..]); }
    FieldWithin(s, 0, 2, 1, LittleEndian(0, 2) + (LittleEndian(|es|, 4) + entries));
    FieldWithin(s, 2, 2, 0, LittleEndian(|es|, 4) + entries);
    FieldWithin(s, 4, 4, |es|, entries);
    forall k: nat | k < |es| ensures EntryAt(s, EntryStart(es, k), es[k]) { EntryHeldIn(es, k); }
  }

  // ----- the implementations -----

  /** A cursor over borrowed bytes. */
  class Reader {
    const bytes: seq<byte>
    const format: string
    var offset: nat

    ghost predicate Valid()
      reads this
    {
      offset <= |bytes|
    }

    function Rest(): seq<byte>
      requires Valid()
      reads this
    {
      bytes[offset..]
    }

    constructor (bytes: seq<byte>, format: string)
      ensures Valid() && this.bytes == bytes && this.format == format && Rest() == bytes
    {
      this.bytes, this.format, this.offset := bytes, format, 0;
    }

    /** The next `length` bytes; on a short source nothing is consumed. */
    method Take(length: nat) returns (r: Decoded<seq<byte>>)
      requires Valid()
      modifies this
      ensures Valid()
      ensures match Split(old(Rest()), length, Short(format))
              case Ok((value, rest)) => r == Ok(value) && Rest() == rest
              case Err(e) => r == Err(e) && offset == old(offset)
    {
      var end := offset + length;
      if end > |bytes| { return Err(InvalidLength(format)); }
      assert Rest()[..length] == bytes[offset..end] && Rest()[length..] == bytes[end..];
      r := Ok(bytes[offset..end]);
      offset := end;
    }

    method ReadNumber(width: nat) returns (r: Decoded<nat>)
      requires Valid()
      modifies this
      ensures Valid()
      ensures match Number(old(Rest()), width, Short(format))
              case Ok((value, rest)) => r == Ok(value) && Rest() == rest
              case Err(e) => r == Err(e) && offset == old(offset)
    {
      var raw :- Take(width);
      return Ok(FromLittleEndian(raw));
    }
  }

  method ReadEmbedding(words: seq<byte>) returns (embedding: seq<nat>)
    requires |words| == EMBEDDING_DIMENSION * 4
    ensures embedding == DecodeWords(words)
  {
    embedding := [];
    for k := 0 to EMBEDDING_DIMENSION
      invariant embedding + DecodeWords(words[4 * k..]) == DecodeWords(words)
    {
      var rest := words[4 * k..];
      assert rest[..4] == words[4 * k..4 * k + 4] && rest[4..] == words[4 * (k + 1)..];
      embedding := embedding + [FromLittleEndian(words[4 * k..4 * k + 4])];
    }
  }

  method ReadEntry(reader: Reader, entries: seq<Entry>) returns (r: Decoded<Entry>)
    requires reader.Valid() && reader.format == PAYLOAD
    modifies reader
    ensures reader.Valid()
    ensures match DecodeEntry(old(reader.Rest()), entries)
            case Ok((e, rest)) => r == Ok(e) && reader.Rest() == rest
            case Err(e) => r == Err(e)
  {
    hide DecodeWords, Number, CheckedId, CheckedLabelLength, CheckedZero, CheckedLabel, CheckedEmbedding;
    var rawId :- reader.Take(16);
    var id :- CheckedId(rawId, entries);
    var created :- reader.ReadNumber(8);
    var rawLength :- reader.ReadNumber(2);
    var length :- CheckedLabelLength(rawLength);
    var reserved :- reader.ReadNumber(2);
    var _ :- CheckedZero(reserved, "canonical payload entry");
    var rawName :- reader.Take(length);
    var name :- CheckedLabel(rawName);
    var words :- reader.Take(EMBEDDING_DIMENSION * 4);
    var floats := ReadEmbedding(words);
    var embedding :- CheckedEmbedding(floats);
    return Ok(Entry(id, created, name, embedding));
  }

  method ReadEntries(reader: Reader, count: nat) returns (r: Decoded<seq<Entry>>)
    requires reader.Valid() && reader.format == PAYLOAD
    modifies reader
    ensures reader.Valid()
    ensures match DecodeEntries(old(reader.Rest()), count, [])
            case Ok((es, rest)) => r == Ok(es) && reader.Rest() == rest
            case Err(e) => r == Err(e)
  {
    hide DecodeEntry;
    var entries := [];
    for k := 0 to count
      invariant reader.Valid()
      invariant DecodeEntries(reader.Rest(), count - k, entries) == DecodeEntries(old(reader.Rest()), count, [])
    {
      var entry :- ReadEntry(reader, entries);
      entries := entries + [entry];
    }
    return Ok(entries);
  }

  method ReadHead(reader: Reader, expected: Option<nat>) returns (r: Decoded<nat>)
    requires reader.Valid() && reader.format == PAYLOAD
    modifies reader
    ensures reader.Valid()
    ensures match DecodeHead(old(reader.Rest()), expected)
            case Ok((count, rest)) => r == Ok(count) && reader.Rest() == rest
            case Err(e) => r == Err(e)
  {
    hide Number, CheckedVersion, CheckedZero, CheckedCount;
    var version :- reader.ReadNumber(2);
    var _ :- CheckedVersion(version, PAYLOAD_VERSION, PAYLOAD);
    var reserved :- reader.ReadNumber(2);
    var _ :- CheckedZero(reserved, PAYLOAD);
    var rawCount :- reader.ReadNumber(4);
    r := CheckedCount(rawCount, expected, |reader.bytes| - reader.offset);
  }

  /** The decoding loop computes the specification, errors included. */
  method DecodeCanonicalPayload(bytes: seq<byte>, expected: Option<nat>) returns (r: Decoded<seq<Entry>>)
    ensures r == DecodePayload(bytes, expected)
  {
    hide DecodeEntries, DecodeHead, CheckedSize, CheckedEnd;
    var _ :- CheckedSize(|bytes|);
    var reader := new Reader(bytes, PAYLOAD);
    var count :- ReadHead(reader, expected);
    var entries :- ReadEntries(reader, count);
    var _ :- CheckedEnd(reader.Rest(), PAYLOAD);
    return Ok(entries);
  }

  lemma {:induction false} EntriesAppend(es: seq<Entry>, e: Entry)
    ensures EncodeEntries(es + [e]) == EncodeEntries(es) + EncodeEntry(e)
  {
    hide EncodeEntry;
    if es == [] {
      assert es + [e] == [e] && [e][1..] == [];
      assert EncodeEntries([e]) == EncodeEntry(e) + [];
    } else {
      EntriesAppend(es[1..], e);
      assert (es + [e])[1..] == es[1..] + [e];
    }
  }

  lemma Flattened(p: seq<byte>, a: seq<byte>, b: seq<byte>, c: seq<byte>, d: seq<byte>, f: seq<byte>, g: seq<byte>)
    ensures p + a + b + c + d + f + g == p + (a + (b + (c + (d + (f + g)))))
  {}

  method PushEntry(payload: seq<byte>, e: Entry) returns (out: seq<byte>)
    ensures out == payload + EncodeEntry(e)
  {
    hide LittleEndian, EncodeWords;
    out := payload + e.id + LittleEndian(e.created, 8) + LittleEndian(|e.name|, 2) + LittleEndian(0, 2) + e.name;
    ghost var prefix := out;
    assert e.embedding[..0] == [] && prefix + [] == prefix;
    NoWords();
    for k := 0 to |e.embedding|
      invariant out == prefix + EncodeWords(e.embedding[..k])
    {
      WordsAppend(e.embedding[..k], e.embedding[k]);
      assert e.embedding[..k] + [e.embedding[k]] == e.embedding[..k + 1];
      assert prefix + (EncodeWords(e.embedding[..k]) + LittleEndian(e.embedding[k], 4))
          == prefix + EncodeWords(e.embedding[..k]) + LittleEndian(e.embedding[k], 4);
      out := out + LittleEndian(e.embedding[k], 4);
    }
    assert e.embedding[..|e.embedding|] == e.embedding;
    Flattened(payload, e.id, LittleEndian(e.created, 8), LittleEndian(|e.name|, 2), LittleEndian(0, 2), e.name,
              EncodeWords(e.embedding));
  }

  lemma NoWords()
    ensures EncodeWords([]) == []
  {}

  /** The sizing loop: the exact length of the payload, unless some entry is not encodable. */
  method PayloadSize(entries: seq<Entry>) returns (r: Decoded<nat>)
    requires forall i :: 0 <= i < |entries| ==> Shaped(entries[i])
    ensures r.Ok? ==> r.value == PAYLOAD_FIXED_BYTES + |EncodeEntries(entries)|
    ensures (forall i :: 0 <= i < |entries| ==> ValidEntry(entries[i])) ==> r.Ok?
  {
    hide EncodeEntry, Utf8, Finite, Shaped;
    var length := PAYLOAD_FIXED_BYTES;
    for k := 0 to |entries|
      invariant length == PAYLOAD_FIXED_BYTES + |EncodeEntries(entries[..k])|
    {
      var e := entries[k];
      if |e.name| > MAX_LABEL_BYTES { return Err(LimitExceeded("label")); }
      if exists i :: 0 <= i < |e.embedding| && !Finite(e.embedding[i]) { return Err(NonFiniteEmbedding); }
      EntryLength(e);
      EntriesAppend(entries[..k], e);
      assert entries[..k] + [e] == entries[..k + 1];
      length := length + ENTRY_FIXED_BYTES + |e.name|;
    }
    assert entries[..|entries|] == entries;
    return Ok(length);
  }

  /** The encoding loop: never refused on a valid record, and within the cap when it succeeds. */
  method EncodeCanonicalPayload(entries: seq<Entry>) returns (r: Decoded<seq<byte>>)
    requires forall i :: 0 <= i < |entries| ==> Shaped(entries[i])
    ensures r.Ok? ==> r.value == EncodePayload(entries) && |r.value| <= MAX_PLAINTEXT_BYTES
    ensures ValidEntries(entries) ==> r == Ok(EncodePayload(entries))
  {
    hide EncodeEntry, ValidEntry, LittleEndian, DistinctIds, Shaped;
    if |entries| >= 0x1_0000_0000 { return Err(LimitExceeded("entry count")); }
    if ValidEntries(entries) { PayloadLength(entries); }
    var length :- PayloadSize(entries);
    if length > MAX_PLAINTEXT_BYTES { return Err(LimitExceeded("canonical plaintext")); }
    var head := LittleEndian(PAYLOAD_VERSION, 2) + LittleEndian(0, 2) + LittleEndian(|entries|, 4);
    var payload := head;
    for k := 0 to |entries|
      invariant payload == head + EncodeEntries(entries[..k])
    {
      EntriesAppend(entries[..k], entries[k]);
      assert entries[..k] + [entries[k]] == entries[..k + 1];
      payload := PushEntry(payload, entries[k]);
    }
    assert entries[..|entries|] == entries;
    assert payload == EncodePayload(entries);
    return Ok(payload);
  }

  lemma EntryLength(e: Entry)
    requires Shaped(e)
    ensures |EncodeEntry(e)| == ENTRY_FIXED_BYTES + |e.name|
  {}
}
