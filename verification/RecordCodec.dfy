/**
 The two record formats around the canonical payload. HOWYPLN1 is plaintext; HOWYENC1
 seals the payload with AES-256-GCM under its public header. Both are bijections
 between valid records and accepted byte strings, and both headers can be inspected
 without the body.
 */
module RecordCodec {
  import opened Wrappers
  import opened Bytes
  import opened StorageTypes
  import opened PayloadCodec

  const PLAIN: string := "HOWYPLN1"
  const SEALED: string := "HOWYENC1"
  const PLAIN_MAGIC: seq<byte> := [72, 79, 87, 89, 80, 76, 78, 49]
  const SEALED_MAGIC: seq<byte> := [72, 79, 87, 89, 69, 78, 67, 49]
  const FORMAT_VERSION: nat := 1
  const AES_256_GCM: nat := 1
  const PLAIN_FIXED_HEADER: nat := 54
  const SEALED_FIXED_HEADER: nat := 88

  // ----- checks -----

  function CheckedMagic(s: seq<byte>, magic: seq<byte>, format: string): Decoded<()> {
    if s != magic then Err(InvalidMagic(format)) else Ok(())
  }

  function CheckedFlags(n: nat, format: string): Decoded<()> {
    if n != 0 then Err(UnknownFlags(format, n)) else Ok(())
  }

  function CheckedGeneration(n: nat): Decoded<nat> { if n == 0 then Err(InvalidGeneration) else Ok(n) }

  function CheckedUsernameLength(n: nat): Decoded<nat> {
    if 1 <= n <= 64 then Ok(n) else Err(InvalidUsername)
  }

  function CheckedUsername(s: seq<byte>): Decoded<seq<byte>> {
    if CanonicalUsername(s) then Ok(s) else Err(InvalidUsername)
  }

  function CheckedBinding(bound: bool, binding: string): Decoded<()> {
    if bound then Ok(()) else Err(BindingMismatch(binding))
  }

  function CheckedRecord(r: Record): Decoded<Record> {
    if r.generation == 0 then Err(InvalidGeneration)
    else if |r.entries| > MAX_ENTRIES then Err(LimitExceeded("entry count"))
    else if !DistinctIds(r.entries) then Err(DuplicateEnrollmentId)
    else Ok(r)
  }

  // ----- HOWYPLN1 -----

  datatype PlainHeader = PlainHeader(generation: nat, model: seq<byte>, username: seq<byte>)

  predicate ValidPlainHeader(h: PlainHeader) {
    0 < h.generation < Range(8) && |h.model| == 32 && CanonicalUsername(h.username)
  }

  function EncodePlainHeader(h: PlainHeader): seq<byte> {
    PLAIN_MAGIC + (LittleEndian(FORMAT_VERSION, 2) + (LittleEndian(0, 2) + (LittleEndian(h.generation, 8)
    + (h.model + (LittleEndian(|h.username|, 2) + h.username)))))
  }

  function HeaderOf(r: Record): PlainHeader { PlainHeader(r.generation, r.model, r.username) }

  function EncodePlain(r: Record): seq<byte> { EncodePlainHeader(HeaderOf(r)) + EncodePayload(r.entries) }

  /** The header at the front of `s`; `format` names the reader in truncation errors. */
  function ParsePlainHeader(s: seq<byte>, format: string): Decoded<(PlainHeader, seq<byte>)> {
    var (magic, s1) :- Split(s, 8, Short(format));
    var _ :- CheckedMagic(magic, PLAIN_MAGIC, PLAIN);
    var (version, s2) :- Number(s1, 2, Short(format));
    var _ :- CheckedVersion(version, FORMAT_VERSION, PLAIN);
    var (flags, s3) :- Number(s2, 2, Short(format));
    var _ :- CheckedFlags(flags, PLAIN);
    var (rawGeneration, s4) :- Number(s3, 8, Short(format));
    var generation :- CheckedGeneration(rawGeneration);
    var (model, s5) :- Split(s4, 32, Short(format));
    var (rawLength, s6) :- Number(s5, 2, Short(format));
    var length :- CheckedUsernameLength(rawLength);
    var (rawUsername, s7) :- Split(s6, length, Short(format));
    var username :- CheckedUsername(rawUsername);
    Ok((PlainHeader(generation, model, username), s7))
  }

  function DecodePlain(s: seq<byte>, username: seq<byte>, model: seq<byte>): Decoded<Record> {
    var (h, rest) :- ParsePlainHeader(s, PLAIN);
    var _ :- CheckedBinding(h.username == username, "username");
    var _ :- CheckedBinding(h.model == model, "recognizer model");
    var entries :- DecodePayload(rest, None);
    CheckedRecord(Record(h.generation, h.model, h.username, entries))
  }

  lemma PlainRegrouped(a: seq<byte>, b: seq<byte>, c: seq<byte>, d: seq<byte>, f: seq<byte>, g: seq<byte>, h: seq<byte>,
                       rest: seq<byte>)
    ensures a + (b + (c + (d + (f + (g + h))))) + rest == a + (b + (c + (d + (f + (g + (h + rest))))))
  {}

  lemma PlainHeaderReadsBack(h: PlainHeader, rest: seq<byte>, format: string)
    requires ValidPlainHeader(h)
    ensures ParsePlainHeader(EncodePlainHeader(h) + rest, format) == Ok((h, rest))
    ensures |EncodePlainHeader(h)| == PLAIN_FIXED_HEADER + |h.username|
  {
    hide LittleEndian, Number, Split, CanonicalUsername;
    Ranges();
    var s6 := h.username + rest;
    var s5 := LittleEndian(|h.username|, 2) + s6;
    var s4 := h.model + s5;
    var s3 := LittleEndian(h.generation, 8) + s4;
    var s2 := LittleEndian(0, 2) + s3;
    var s1 := LittleEndian(FORMAT_VERSION, 2) + s2;
    PlainRegrouped(PLAIN_MAGIC, LittleEndian(FORMAT_VERSION, 2), LittleEndian(0, 2), LittleEndian(h.generation, 8),
                   h.model, LittleEndian(|h.username|, 2), h.username, rest);
    UsernameLength(h.username);
    SplitAppended(PLAIN_MAGIC, s1, Short(format));
    NumberAppended(FORMAT_VERSION, 2, s2, Short(format));
    NumberAppended(0, 2, s3, Short(format));
    NumberAppended(h.generation, 8, s4, Short(format));
    SplitAppended(h.model, s5, Short(format));
    NumberAppended(|h.username|, 2, s6, Short(format));
    SplitAppended(h.username, rest, Short(format));
  }

  lemma UsernameLength(s: seq<byte>)
    requires CanonicalUsername(s)
    ensures 1 <= |s| <= 64
  {}

  lemma PlainHeaderParsed(s: seq<byte>, format: string)
    requires ParsePlainHeader(s, format).Ok?
    ensures var (h, rest) := ParsePlainHeader(s, format).value;
            ValidPlainHeader(h) && s == EncodePlainHeader(h) + rest
  {
    hide LittleEndian, Number, CanonicalUsername, Range;
    var (magic, s1) := Split(s, 8, Short(format)).value;
    Rejoined(s, 8);
    NumberParsed(s1, 2, Short(format));
    var s2 := Number(s1, 2, Short(format)).value.1;
    NumberParsed(s2, 2, Short(format));
    var s3 := Number(s2, 2, Short(format)).value.1;
    NumberParsed(s3, 8, Short(format));
    var (generation, s4) := Number(s3, 8, Short(format)).value;
    var (model, s5) := Split(s4, 32, Short(format)).value;
    Rejoined(s4, 32);
    NumberParsed(s5, 2, Short(format));
    var (length, s6) := Number(s5, 2, Short(format)).value;
    var (username, s7) := Split(s6, length, Short(format)).value;
    Rejoined(s6, length);
    PlainRegrouped(PLAIN_MAGIC, LittleEndian(FORMAT_VERSION, 2), LittleEndian(0, 2), LittleEndian(generation, 8), model,
                   LittleEndian(length, 2), username, s7);
  }

  /** Decoding a HOWYPLN1 record undoes encoding it. */
  lemma PlainReadsBack(r: Record)
    requires ValidRecord(r)
    ensures DecodePlain(EncodePlain(r), r.username, r.model) == Ok(r)
  {
    hide EncodePayload, DecodePayload, ParsePlainHeader, EncodePlainHeader, ValidEntry;
    PlainHeaderReadsBack(HeaderOf(r), EncodePayload(r.entries), PLAIN);
    PayloadReadsBack(r.entries, None);
  }

  /** Every accepted HOWYPLN1 record re-encodes to exactly itself. */
  lemma PlainCanonical(s: seq<byte>, username: seq<byte>, model: seq<byte>)
    requires DecodePlain(s, username, model).Ok?
    ensures var r := DecodePlain(s, username, model).value;
            ValidRecord(r) && EncodePlain(r) == s && r.username == username && r.model == model
  {
    hide EncodePayload, DecodePayload, ParsePlainHeader, EncodePlainHeader, ValidEntry;
    PlainHeaderParsed(s, PLAIN);
    PayloadCanonical(ParsePlainHeader(s, PLAIN).value.1, None);
  }

  /** Exactly the encodings of valid records with the expected bindings are accepted. */
  lemma PlainAcceptsExactly(s: seq<byte>, username: seq<byte>, model: seq<byte>, r: Record)
    ensures DecodePlain(s, username, model) == Ok(r)
       <==> ValidRecord(r) && s == EncodePlain(r) && r.username == username && r.model == model
  {
    if DecodePlain(s, username, model) == Ok(r) { PlainCanonical(s, username, model); }
    if ValidRecord(r) { PlainReadsBack(r); }
  }

  /** Of two byte strings of which one begins with the other, at most one is accepted: no truncation of an accepted
      record is accepted, and no continuation. */
  lemma PlainWhole(s: seq<byte>, extra: seq<byte>, username: seq<byte>, model: seq<byte>, username': seq<byte>,
                   model': seq<byte>)
    requires DecodePlain(s, username, model).Ok? && extra != []
    ensures DecodePlain(s + extra, username', model').Err?
  {
    hide DecodePlain, EncodePayload, EncodePlainHeader, ParsePlainHeader, ValidEntries;
    if DecodePlain(s + extra, username', model').Ok? {
      PlainCanonical(s, username, model);
      PlainCanonical(s + extra, username', model');
      var r := DecodePlain(s, username, model).value;
      var q := DecodePlain(s + extra, username', model').value;
      PlainHeaderReadsBack(HeaderOf(r), EncodePayload(r.entries) + extra, PLAIN);
      PlainHeaderReadsBack(HeaderOf(q), EncodePayload(q.entries), PLAIN);
      assert s + extra == EncodePlainHeader(HeaderOf(r)) + (EncodePayload(r.entries) + extra);
      PayloadWhole(r.entries, q.entries, extra);
    }
  }

  // ----- where every HOWYPLN1 field is -----

  lemma PlainHeaderHeld(s: seq<byte>, h: PlainHeader, rest: seq<byte>)
    requires |h.model| == 32 && s == EncodePlainHeader(h) + rest
    ensures Spells(s, 0, "HOWYPLN1") && Holds(s, 8, 2, 1) && Holds(s, 10, 2, 0) && Holds(s, 12, 8, h.generation)
    ensures Within(s, 20, h.model) && Holds(s, 52, 2, |h.username|) && Within(s, 54, h.username)
    ensures Within(s, 54 + |h.username|, rest) && |s| == 54 + |h.username| + |rest|
  {
    hide LittleEndian, Holds, Within;
    PlainRegrouped(PLAIN_MAGIC, LittleEndian(FORMAT_VERSION, 2), LittleEndian(0, 2), LittleEndian(h.generation, 8),
                   h.model, LittleEndian(|h.username|, 2), h.username, rest);
    var s6 := h.username + rest;
    var s5 := LittleEndian(|h.username|, 2) + s6;
    var s4 := h.model + s5;
    var s3 := LittleEndian(h.generation, 8) + s4;
    var s2 := LittleEndian(0, 2) + s3;
    var s1 := LittleEndian(1, 2) + s2;
    WholeWithin(s);
    PieceWithin(s, 0, PLAIN_MAGIC, s1);
    FieldWithin(s, 8, 2, 1, s2);
    FieldWithin(s, 10, 2, 0, s3);
    FieldWithin(s, 12, 8, h.generation, s4);
    PieceWithin(s, 20, h.model, s5);
    FieldWithin(s, 52, 2, |h.username|, s6);
    PieceWithin(s, 54, h.username, rest);
  }

  /** A HOWYPLN1 record byte by byte. */
  lemma PlainLayout(r: Record)
    requires ValidRecord(r)
    ensures var (s, n) := (EncodePlain(r), |r.username|);
            && Spells(s, 0, "HOWYPLN1")
            && Holds(s, 8, 2, 1)
            && Holds(s, 10, 2, 0)
            && Holds(s, 12, 8, r.generation)
            && |s| >= 54 + n && s[20..52] == r.model
            && Holds(s, 52, 2, n)
            && s[54..54 + n] == r.username
            && s[54 + n..] == EncodePayload(r.entries)
  {
    hide EncodePayload, EncodePlainHeader, Holds, ValidEntries;
    PlainHeaderHeld(EncodePlain(r), HeaderOf(r), EncodePayload(r.entries));
  }

  // ----- inspecting a HOWYPLN1 header -----

  const PLAIN_METADATA: string := "HOWYPLN1 metadata"

  datatype PlainInspection = PlainInspection(generation: nat, entryCount: nat)

  function CheckedConfiguredEntries(max: nat): Decoded<()> {
    if max == 0 || max > MAX_ENTRIES then Err(LimitExceeded("entry count")) else Ok(())
  }

  function CheckedLength(valid: bool, format: string): Decoded<()> {
    if valid then Ok(()) else Err(InvalidLength(format))
  }

  function CheckedInspectedCount(n: nat, max: nat): Decoded<nat> {
    if n > max || n > MAX_ENTRIES then Err(LimitExceeded("entry count")) else Ok(n)
  }

  /** The payload's own version, reserved field and entry count. */
  function ParsePayloadMetadata(s: seq<byte>, format: string): Decoded<(nat, seq<byte>)> {
    var (version, s1) :- Number(s, 2, Short(format));
    var _ :- CheckedVersion(version, PAYLOAD_VERSION, PAYLOAD);
    var (reserved, s2) :- Number(s1, 2, Short(format));
    var _ :- CheckedZero(reserved, PAYLOAD);
    Number(s2, 4, Short(format))
  }

  function InspectPlain(prefix: seq<byte>, sourceLength: nat, username: seq<byte>, model: seq<byte>, max: nat)
    : Decoded<PlainInspection>
  {
    var _ :- CheckedConfiguredEntries(max);
    var _ :- CheckedLength(|prefix| <= PLAIN_FIXED_HEADER + 64 + PAYLOAD_FIXED_BYTES, PLAIN);
    var (h, s1) :- ParsePlainHeader(prefix, PLAIN_METADATA);
    var _ :- CheckedBinding(h.username == username, "username");
    var _ :- CheckedBinding(h.model == model, "recognizer model");
    var (rawCount, s2) :- ParsePayloadMetadata(s1, PLAIN_METADATA);
    var _ :- CheckedEnd(s2, PLAIN_METADATA);
    var count :- CheckedInspectedCount(rawCount, max);
    var least := |prefix| + count * ENTRY_FIXED_BYTES;
    var _ :- CheckedLength(least <= sourceLength <= least + count * MAX_LABEL_BYTES, PLAIN);
    Ok(PlainInspection(h.generation, count))
  }

  /** What a payload of `count` entries starts with. */
  function PayloadHead(count: nat): (s: seq<byte>)
    ensures |s| == PAYLOAD_FIXED_BYTES
  {
    LittleEndian(PAYLOAD_VERSION, 2) + (LittleEndian(0, 2) + LittleEndian(count, 4))
  }

  lemma PayloadHeadReadsBack(count: nat, format: string)
    requires count <= MAX_ENTRIES
    ensures ParsePayloadMetadata(PayloadHead(count), format) == Ok((count, []))
  {
    hide LittleEndian, Number;
    Ranges();
    NumberAppended(PAYLOAD_VERSION, 2, LittleEndian(0, 2) + LittleEndian(count, 4), Short(format));
    NumberAppended(0, 2, LittleEndian(count, 4), Short(format));
    assert LittleEndian(count, 4) + [] == LittleEndian(count, 4);
    NumberAppended(count, 4, [], Short(format));
  }

  lemma PayloadHeadParsed(s: seq<byte>, format: string)
    requires ParsePayloadMetadata(s, format).Ok? && ParsePayloadMetadata(s, format).value.1 == []
    ensures s == PayloadHead(ParsePayloadMetadata(s, format).value.0)
  {
    hide LittleEndian, Number;
    NumberParsed(s, 2, Short(format));
    var s1 := Number(s, 2, Short(format)).value.1;
    NumberParsed(s1, 2, Short(format));
    var s2 := Number(s1, 2, Short(format)).value.1;
    NumberParsed(s2, 4, Short(format));
  }

  /** Whatever decodes in full inspects the same from its metadata prefix and its length alone. */
  lemma PlainInspectionAgrees(s: seq<byte>, username: seq<byte>, model: seq<byte>, max: nat)
    requires DecodePlain(s, username, model).Ok?
    requires |DecodePlain(s, username, model).value.entries| <= max && 1 <= max <= MAX_ENTRIES
    ensures var r := DecodePlain(s, username, model).value;
            && PLAIN_FIXED_HEADER + |username| + PAYLOAD_FIXED_BYTES <= |s|
            && InspectPlain(s[..PLAIN_FIXED_HEADER + |username| + PAYLOAD_FIXED_BYTES], |s|, username, model, max)
               == Ok(PlainInspection(r.generation, |r.entries|))
  {
    hide LittleEndian, DecodePayload, ParsePlainHeader, EncodePlainHeader, EncodeEntries, ValidEntry, DecodePlain,
         CanonicalUsername, ParsePayloadMetadata, DistinctIds, PayloadHead;
    PlainCanonical(s, username, model);
    var r := DecodePlain(s, username, model).value;
    PayloadHeadReadsBack(|r.entries|, PLAIN_METADATA);
    PlainHeaderReadsBack(HeaderOf(r), PayloadHead(|r.entries|), PLAIN_METADATA);
    UsernameLength(r.username);
    PayloadLength(r.entries);
    EntriesLength(r.entries);
    PrefixOf(EncodePlainHeader(HeaderOf(r)), r.entries);
  }

  /** Inspection accepts exactly a prefix that is a valid header with the expected bindings and a payload head with
      an admitted count, in front of a source whose length that count allows. */
  lemma PlainInspectedExactly(prefix: seq<byte>, sourceLength: nat, username: seq<byte>, model: seq<byte>, max: nat,
                              i: PlainInspection)
    ensures InspectPlain(prefix, sourceLength, username, model, max) == Ok(i) <==>
      && 1 <= max <= MAX_ENTRIES && i.entryCount <= max
      && ValidPlainHeader(PlainHeader(i.generation, model, username))
      && prefix == EncodePlainHeader(PlainHeader(i.generation, model, username)) + PayloadHead(i.entryCount)
      && |prefix| + i.entryCount * 2_076 <= sourceLength <= |prefix| + i.entryCount * (2_076 + 256)
  {
    hide ParsePlainHeader, EncodePlainHeader, ParsePayloadMetadata, ValidPlainHeader, PayloadHead;
    var h := PlainHeader(i.generation, model, username);
    if InspectPlain(prefix, sourceLength, username, model, max) == Ok(i) {
      PlainHeaderParsed(prefix, PLAIN_METADATA);
      var rest := ParsePlainHeader(prefix, PLAIN_METADATA).value.1;
      PayloadHeadParsed(rest, PLAIN_METADATA);
    }
    if (&& 1 <= max <= MAX_ENTRIES && i.entryCount <= max && ValidPlainHeader(h)
        && prefix == EncodePlainHeader(h) + PayloadHead(i.entryCount)
        && |prefix| + i.entryCount * 2_076 <= sourceLength <= |prefix| + i.entryCount * (2_076 + 256))
    {
      PlainHeaderReadsBack(h, PayloadHead(i.entryCount), PLAIN_METADATA);
      PlainHeaderUsername(h);
      PayloadHeadReadsBack(i.entryCount, PLAIN_METADATA);
    }
  }

  lemma PlainHeaderUsername(h: PlainHeader)
    requires ValidPlainHeader(h)
    ensures |h.username| <= 64
  {}

  lemma PrefixOf(header: seq<byte>, es: seq<Entry>)
    ensures |header| + 8 <= |header + EncodePayload(es)|
    ensures (header + EncodePayload(es))[..|header| + 8] == header + PayloadHead(|es|)
  {
    hide EncodeEntries, LittleEndian;
    assert EncodePayload(es)[..8] == PayloadHead(|es|);
  }

  // ----- HOWYENC1 -----

  /** An authenticated cipher: seal(key, nonce, aad, plaintext) and open(key, nonce, aad, ciphertext, tag). */
  datatype Aead = Aead(
    seal: (seq<byte>, seq<byte>, seq<byte>, seq<byte>) -> (seq<byte>, seq<byte>),
    open: (seq<byte>, seq<byte>, seq<byte>, seq<byte>, seq<byte>) -> Option<seq<byte>>)

  /** The contract of sections 7.1 and 7.2 of NIST SP 800-38D: lengths, opening what was sealed, and
      opening nothing else. */
  ghost predicate Authentic(a: Aead) {
    && (forall k, n, d, p :: |a.seal(k, n, d, p).0| == |p| && |a.seal(k, n, d, p).1| == GCM_TAG_BYTES)
    && (forall k, n, d, p :: a.open(k, n, d, a.seal(k, n, d, p).0, a.seal(k, n, d, p).1) == Some(p))
    && (forall k, n, d, c, t :: a.open(k, n, d, c, t).Some? ==> a.seal(k, n, d, a.open(k, n, d, c, t).value) == (c, t))
  }

  /** A cipher that hides nothing and tags everything alike: it meets the contract, so the contract can be met. */
  function TransparentCipher(): Aead {
    var tag: seq<byte> := [0, 0, 0, 0, 0, 0, 0, 0, 0, 0, 0, 0, 0, 0, 0, 0];
    Aead((k, n, d, p) => (p, tag), (k, n, d, c, t) => if t == tag then Some(c) else None)
  }

  lemma ContractIsMet()
    ensures Authentic(TransparentCipher())
  {}

  datatype EncryptedHeader = EncryptedHeader(
    mode: StorageMode, epoch: nat, generation: nat, plaintextLength: nat, entryCount: nat,
    model: seq<byte>, nonce: seq<byte>, username: seq<byte>)

  predicate ValidSealedHeader(h: EncryptedHeader) {
    && 0 < h.epoch < Range(8) && 0 < h.generation < Range(8)
    && h.plaintextLength <= MAX_PLAINTEXT_BYTES && h.entryCount <= MAX_ENTRIES
    && PAYLOAD_FIXED_BYTES + h.entryCount * ENTRY_FIXED_BYTES <= h.plaintextLength
    && |h.model| == 32 && |h.nonce| == 12 && CanonicalUsername(h.username)
  }

  function HeaderLength(h: EncryptedHeader): nat { SEALED_FIXED_HEADER + |h.username| }

  function TotalLength(h: EncryptedHeader): nat { HeaderLength(h) + h.plaintextLength + GCM_TAG_BYTES }

  function EncodeFront(mode: StorageMode, headerLength: nat): seq<byte> {
    SEALED_MAGIC
        + (LittleEndian(FORMAT_VERSION, 2) + (LittleEndian(AES_256_GCM, 2) + (LittleEndian(mode.Identifier(), 1)
    + (LittleEndian(0, 1) + LittleEndian(headerLength, 2)))))
  }

  function EncodeMiddle(h: EncryptedHeader): seq<byte> {
    LittleEndian(h.epoch, 8)
        + (LittleEndian(h.generation, 8) + (LittleEndian(h.plaintextLength, 4) + LittleEndian(h.entryCount, 4)))
  }

  function EncodeTail(h: EncryptedHeader): seq<byte> {
    LittleEndian(EMBEDDING_DIMENSION, 2) + (LittleEndian(|h.username|, 2) + (h.model + h.nonce))
  }

  function EncodeSealedHeader(h: EncryptedHeader): seq<byte> {
    EncodeFront(h.mode, HeaderLength(h)) + (EncodeMiddle(h) + (EncodeTail(h) + h.username))
  }

  function CheckedAlgorithm(n: nat): Decoded<()> {
    if n != AES_256_GCM then Err(UnsupportedAlgorithm(n)) else Ok(())
  }

  function CheckedMode(n: nat): Decoded<StorageMode> {
    if n == 1 then Ok(AeadCached) else if n == 2 then Ok(AeadEphemeral) else Err(UnsupportedMode(n))
  }

  function CheckedEpoch(n: nat): Decoded<nat> { if n == 0 then Err(InvalidEpoch) else Ok(n) }

  function CheckedPlaintextLength(n: nat, max: nat): Decoded<nat> {
    if n > max then Err(LimitExceeded("HOWYENC1 plaintext")) else Ok(n)
  }

  function CheckedDimension(n: nat): Decoded<()> {
    if n != EMBEDDING_DIMENSION then Err(InvalidEmbeddingDimension(n)) else Ok(())
  }

  function ParseFront(s: seq<byte>): Decoded<(Front, seq<byte>)> {
    var (magic, s1) :- Split(s, 8, Short(SEALED));
    var _ :- CheckedMagic(magic, SEALED_MAGIC, SEALED);
    var (version, s2) :- Number(s1, 2, Short(SEALED));
    var _ :- CheckedVersion(version, FORMAT_VERSION, SEALED);
    var (algorithm, s3) :- Number(s2, 2, Short(SEALED));
    var _ :- CheckedAlgorithm(algorithm);
    var (rawMode, s4) :- Number(s3, 1, Short(SEALED));
    var mode :- CheckedMode(rawMode);
    var (flags, s5) :- Number(s4, 1, Short(SEALED));
    var _ :- CheckedFlags(flags, SEALED);
    var (headerLength, s6) :- Number(s5, 2, Short(SEALED));
    Ok(((mode, headerLength), s6))
  }

  function ParseMiddle(s: seq<byte>): Decoded<(Middle, seq<byte>)> {
    var (rawEpoch, s1) :- Number(s, 8, Short(SEALED));
    var epoch :- CheckedEpoch(rawEpoch);
    var (rawGeneration, s2) :- Number(s1, 8, Short(SEALED));
    var generation :- CheckedGeneration(rawGeneration);
    var (rawLength, s3) :- Number(s2, 4, Short(SEALED));
    var length :- CheckedPlaintextLength(rawLength, MAX_PLAINTEXT_BYTES);
    var (rawCount, s4) :- Number(s3, 4, Short(SEALED));
    var count :- CheckedInspectedCount(rawCount, MAX_ENTRIES);
    Ok(((epoch, generation, length, count), s4))
  }

  function ParseTail(s: seq<byte>): Decoded<(Tail, seq<byte>)> {
    var (dimension, s1) :- Number(s, 2, Short(SEALED));
    var _ :- CheckedDimension(dimension);
    var (rawLength, s2) :- Number(s1, 2, Short(SEALED));
    var length :- CheckedUsernameLength(rawLength);
    var (model, s3) :- Split(s2, 32, Short(SEALED));
    var (nonce, s4) :- Split(s3, 12, Short(SEALED));
    Ok(((length, model, nonce), s4))
  }

  type Front = (StorageMode, nat)
  type Middle = (nat, nat, nat, nat)
  type Tail = (nat, seq<byte>, seq<byte>)

  /** The length checks across the fixed header, then the username. */
  function AssembleHeader(front: Front, middle: Middle, tail: Tail, s: seq<byte>, sourceLength: nat)
    : Decoded<(EncryptedHeader, seq<byte>)>
  {
    var ((mode, headerLength), (epoch, generation, length, count), (usernameLength, model, nonce)) :=
        (front, middle, tail);
    var _ :- CheckedLength(headerLength == SEALED_FIXED_HEADER + usernameLength, SEALED);
    var _ :- CheckedLength(sourceLength == headerLength + length + GCM_TAG_BYTES, SEALED);
    var _ :- CheckedLength(length >= PAYLOAD_FIXED_BYTES + count * ENTRY_FIXED_BYTES, SEALED);
    var (rawUsername, rest) :- Split(s, usernameLength, Short(SEALED));
    var username :- CheckedUsername(rawUsername);
    Ok((EncryptedHeader(mode, epoch, generation, length, count, model, nonce, username), rest))
  }

  /** The public header at the front of `s`, checked against the length of the whole record. */
  function ParseSealedHeader(s: seq<byte>, sourceLength: nat): Decoded<(EncryptedHeader, seq<byte>)> {
    var (front, s1) :- ParseFront(s);
    var (middle, s2) :- ParseMiddle(s1);
    var (tail, s3) :- ParseTail(s2);
    AssembleHeader(front, middle, tail, s3, sourceLength)
  }

  lemma FrontReadsBack(mode: StorageMode, headerLength: nat, rest: seq<byte>)
    requires headerLength < Range(2)
    ensures ParseFront(EncodeFront(mode, headerLength) + rest) == Ok(((mode, headerLength), rest))
    ensures |EncodeFront(mode, headerLength)| == 16
  {
    hide LittleEndian, Number, Split;
    Ranges();
    var s5 := LittleEndian(headerLength, 2) + rest;
    var s4 := LittleEndian(0, 1) + s5;
    var s3 := LittleEndian(mode.Identifier(), 1) + s4;
    var s2 := LittleEndian(AES_256_GCM, 2) + s3;
    var s1 := LittleEndian(FORMAT_VERSION, 2) + s2;
    Regrouped(SEALED_MAGIC, LittleEndian(FORMAT_VERSION, 2), LittleEndian(AES_256_GCM, 2),
              LittleEndian(mode.Identifier(), 1), LittleEndian(0, 1), LittleEndian(headerLength, 2), rest);
    SplitAppended(SEALED_MAGIC, s1, Short(SEALED));
    NumberAppended(FORMAT_VERSION, 2, s2, Short(SEALED));
    NumberAppended(AES_256_GCM, 2, s3, Short(SEALED));
    NumberAppended(mode.Identifier(), 1, s4, Short(SEALED));
    NumberAppended(0, 1, s5, Short(SEALED));
    NumberAppended(headerLength, 2, rest, Short(SEALED));
  }

  lemma FrontParsed(s: seq<byte>)
    requires ParseFront(s).Ok?
    ensures var ((mode, headerLength), rest) := ParseFront(s).value;
            headerLength < Range(2) && s == EncodeFront(mode, headerLength) + rest
  {
    hide LittleEndian, Number, Range;
    var (magic, s1) := Split(s, 8, Short(SEALED)).value;
    Rejoined(s, 8);
    NumberParsed(s1, 2, Short(SEALED));
    var s2 := Number(s1, 2, Short(SEALED)).value.1;
    NumberParsed(s2, 2, Short(SEALED));
    var s3 := Number(s2, 2, Short(SEALED)).value.1;
    NumberParsed(s3, 1, Short(SEALED));
    var (mode, s4) := Number(s3, 1, Short(SEALED)).value;
    NumberParsed(s4, 1, Short(SEALED));
    var s5 := Number(s4, 1, Short(SEALED)).value.1;
    NumberParsed(s5, 2, Short(SEALED));
    var (headerLength, s6) := Number(s5, 2, Short(SEALED)).value;
    Regrouped(SEALED_MAGIC, LittleEndian(FORMAT_VERSION, 2), LittleEndian(AES_256_GCM, 2), LittleEndian(mode, 1),
              LittleEndian(0, 1), LittleEndian(headerLength, 2), s6);
  }

  lemma FourRegrouped(a: seq<byte>, b: seq<byte>, c: seq<byte>, d: seq<byte>, rest: seq<byte>)
    ensures a + (b + (c + d)) + rest == a + (b + (c + (d + rest)))
  {}

  lemma MiddleReadsBack(h: EncryptedHeader, rest: seq<byte>)
    requires ValidSealedHeader(h)
    ensures ParseMiddle(EncodeMiddle(h) + rest) == Ok(((h.epoch, h.generation, h.plaintextLength, h.entryCount), rest))
    ensures |EncodeMiddle(h)| == 24
  {
    hide LittleEndian, Number, CanonicalUsername;
    Ranges();
    var s3 := LittleEndian(h.entryCount, 4) + rest;
    var s2 := LittleEndian(h.plaintextLength, 4) + s3;
    var s1 := LittleEndian(h.generation, 8) + s2;
    FourRegrouped(LittleEndian(h.epoch, 8), LittleEndian(h.generation, 8), LittleEndian(h.plaintextLength, 4),
                  LittleEndian(h.entryCount, 4), rest);
    NumberAppended(h.epoch, 8, s1, Short(SEALED));
    NumberAppended(h.generation, 8, s2, Short(SEALED));
    NumberAppended(h.plaintextLength, 4, s3, Short(SEALED));
    NumberAppended(h.entryCount, 4, rest, Short(SEALED));
  }

  lemma MiddleParsed(s: seq<byte>)
    requires ParseMiddle(s).Ok?
    ensures var ((epoch, generation, length, count), rest) := ParseMiddle(s).value;
            && 0 < epoch < Range(8) && 0 < generation < Range(8)
            && length <= MAX_PLAINTEXT_BYTES && count <= MAX_ENTRIES
            && s == LittleEndian(epoch, 8)
                + (LittleEndian(generation, 8) + (LittleEndian(length, 4) + LittleEndian(count, 4))) + rest
  {
    hide LittleEndian, Number, Range;
    NumberParsed(s, 8, Short(SEALED));
    var (epoch, s1) := Number(s, 8, Short(SEALED)).value;
    NumberParsed(s1, 8, Short(SEALED));
    var (generation, s2) := Number(s1, 8, Short(SEALED)).value;
    NumberParsed(s2, 4, Short(SEALED));
    var (length, s3) := Number(s2, 4, Short(SEALED)).value;
    NumberParsed(s3, 4, Short(SEALED));
    var (count, s4) := Number(s3, 4, Short(SEALED)).value;
    FourRegrouped(LittleEndian(epoch, 8), LittleEndian(generation, 8), LittleEndian(length, 4),
                  LittleEndian(count, 4), s4);
  }

  lemma TailReadsBack(h: EncryptedHeader, rest: seq<byte>)
    requires ValidSealedHeader(h)
    ensures ParseTail(EncodeTail(h) + rest) == Ok(((|h.username|, h.model, h.nonce), rest))
    ensures |EncodeTail(h)| == 48
  {
    hide LittleEndian, Number, Split, CanonicalUsername;
    Ranges();
    UsernameLength(h.username);
    var s3 := h.nonce + rest;
    var s2 := h.model + s3;
    var s1 := LittleEndian(|h.username|, 2) + s2;
    FourRegrouped(LittleEndian(EMBEDDING_DIMENSION, 2), LittleEndian(|h.username|, 2), h.model, h.nonce, rest);
    NumberAppended(EMBEDDING_DIMENSION, 2, s1, Short(SEALED));
    NumberAppended(|h.username|, 2, s2, Short(SEALED));
    SplitAppended(h.model, s3, Short(SEALED));
    SplitAppended(h.nonce, rest, Short(SEALED));
  }

  lemma TailParsed(s: seq<byte>)
    requires ParseTail(s).Ok?
    ensures var ((length, model, nonce), rest) := ParseTail(s).value;
            && |model| == 32 && |nonce| == 12
            && s == LittleEndian(EMBEDDING_DIMENSION, 2) + (LittleEndian(length, 2) + (model + nonce)) + rest
  {
    hide LittleEndian, Number, Range;
    NumberParsed(s, 2, Short(SEALED));
    var s1 := Number(s, 2, Short(SEALED)).value.1;
    NumberParsed(s1, 2, Short(SEALED));
    var (length, s2) := Number(s1, 2, Short(SEALED)).value;
    var (model, s3) := Split(s2, 32, Short(SEALED)).value;
    Rejoined(s2, 32);
    var (nonce, s4) := Split(s3, 12, Short(SEALED)).value;
    Rejoined(s3, 12);
    FourRegrouped(LittleEndian(EMBEDDING_DIMENSION, 2), LittleEndian(length, 2), model, nonce, s4);
  }

  /** The header is recovered from its bytes and the total length, whatever bytes follow it. */
  lemma SealedHeaderReadsBack(h: EncryptedHeader, rest: seq<byte>)
    requires ValidSealedHeader(h)
    ensures ParseSealedHeader(EncodeSealedHeader(h) + rest, TotalLength(h)) == Ok((h, rest))
    ensures |EncodeSealedHeader(h)| == HeaderLength(h)
  {
    hide EncodeFront, EncodeMiddle, EncodeTail, ParseFront, ParseMiddle, ParseTail, CanonicalUsername, Split;
    Ranges();
    UsernameLength(h.username);
    FourRegrouped(EncodeFront(h.mode, HeaderLength(h)), EncodeMiddle(h), EncodeTail(h), h.username, rest);
    FrontReadsBack(h.mode, HeaderLength(h), EncodeMiddle(h) + (EncodeTail(h) + (h.username + rest)));
    MiddleReadsBack(h, EncodeTail(h) + (h.username + rest));
    TailReadsBack(h, h.username + rest);
    SplitAppended(h.username, rest, Short(SEALED));
  }

  lemma SealedHeaderParsed(s: seq<byte>, sourceLength: nat)
    requires ParseSealedHeader(s, sourceLength).Ok?
    ensures var (h, rest) := ParseSealedHeader(s, sourceLength).value;
            ValidSealedHeader(h) && s == EncodeSealedHeader(h) + rest && sourceLength == TotalLength(h)
  {
    hide LittleEndian, EncodeFront, ParseFront, ParseMiddle, ParseTail, CanonicalUsername, Range;
    FrontParsed(s);
    var s1 := ParseFront(s).value.1;
    MiddleParsed(s1);
    var s2 := ParseMiddle(s1).value.1;
    TailParsed(s2);
    var ((length, _, _), s3) := ParseTail(s2).value;
    Rejoined(s3, length);
    var (h, rest) := ParseSealedHeader(s, sourceLength).value;
    FourRegrouped(EncodeFront(h.mode, HeaderLength(h)), EncodeMiddle(h), EncodeTail(h), h.username, rest);
  }

  function SealedHeaderOf(r: Record, mode: StorageMode, epoch: nat, nonce: seq<byte>): EncryptedHeader {
    EncryptedHeader(mode, epoch, r.generation, |EncodePayload(r.entries)|, |r.entries|, r.model, nonce, r.username)
  }

  function EncodeSealed(a: Aead, r: Record, mode: StorageMode, epoch: nat, key: seq<byte>,
                        nonce: seq<byte>): Decoded<seq<byte>> {
    var _ :- CheckedEpoch(epoch);
    var header := EncodeSealedHeader(SealedHeaderOf(r, mode, epoch, nonce));
    var (ciphertext, tag) := a.seal(key, nonce, header, EncodePayload(r.entries));
    Ok(header + (ciphertext + tag))
  }

  function Opened(p: Option<seq<byte>>): Decoded<seq<byte>> {
    if p.Some? then Ok(p.value) else Err(AuthenticationFailed)
  }

  function CheckedBindings(h: EncryptedHeader, mode: StorageMode, epoch: nat, username: seq<byte>,
                           model: seq<byte>): Decoded<()> {
    var _ :- CheckedBinding(h.mode == mode, "storage mode");
    var _ :- CheckedBinding(h.epoch == epoch, "key epoch");
    var _ :- CheckedBinding(h.username == username, "username");
    CheckedBinding(h.model == model, "recognizer model")
  }

  function DecodeSealed(a: Aead, s: seq<byte>, key: seq<byte>, mode: StorageMode, epoch: nat, username: seq<byte>,
                        model: seq<byte>)
    : Decoded<Record>
  {
    var (h, body) :- ParseSealedHeader(s, |s|);
    var _ :- CheckedBindings(h, mode, epoch, username, model);
    var (ciphertext, rest) :- Split(body, h.plaintextLength, Short(SEALED));
    var (tag, extra) :- Split(rest, GCM_TAG_BYTES, Short(SEALED));
    var _ :- CheckedEnd(extra, SEALED);
    var aad := s[..|s| - |body|];
    var payload :- Opened(a.open(key, h.nonce, aad, ciphertext, tag));
    var _ :- CheckedLength(|payload| == h.plaintextLength, SEALED);
    var entries :- DecodePayload(payload, Some(h.entryCount));
    CheckedRecord(Record(h.generation, h.model, h.username, entries))
  }

  lemma SealedHeaderValid(r: Record, mode: StorageMode, epoch: nat, nonce: seq<byte>)
    requires ValidRecord(r) && 0 < epoch < Range(8) && |nonce| == 12
    ensures ValidSealedHeader(SealedHeaderOf(r, mode, epoch, nonce))
  {
    PayloadLength(r.entries);
  }

  /** Decoding a HOWYENC1 record undoes encoding it, for every cipher that keeps the GCM contract. */
  lemma SealedReadsBack(a: Aead, r: Record, mode: StorageMode, epoch: nat, key: seq<byte>, nonce: seq<byte>)
    requires Authentic(a) && ValidRecord(r) && 0 < epoch < Range(8) && |nonce| == 12
    ensures EncodeSealed(a, r, mode, epoch, key, nonce).Ok?
    ensures DecodeSealed(a, EncodeSealed(a, r, mode, epoch, key, nonce).value, key, mode, epoch, r.username, r.model)
      == Ok(r)
  {
    hide EncodePayload, DecodePayload, EncodeSealedHeader, ParseSealedHeader, ValidEntry, ValidSealedHeader, Range,
         CanonicalUsername;
    var h := SealedHeaderOf(r, mode, epoch, nonce);
    SealedHeaderValid(r, mode, epoch, nonce);
    var header, payload := EncodeSealedHeader(h), EncodePayload(r.entries);
    var (ciphertext, tag) := a.seal(key, nonce, header, payload);
    assert |ciphertext| == |payload| && |tag| == GCM_TAG_BYTES;
    assert a.open(key, nonce, header, ciphertext, tag) == Some(payload);
    var s := header + (ciphertext + tag);
    SealedHeaderReadsBack(h, ciphertext + tag);
    assert |s| == TotalLength(h) && s[..|s| - |ciphertext + tag|] == header;
    SplitAppended(ciphertext, tag, Short(SEALED));
    assert tag + [] == tag;
    SplitAppended(tag, [], Short(SEALED));
    PayloadReadsBack(r.entries, Some(|r.entries|));
  }

  /** Every accepted HOWYENC1 record re-encodes to exactly itself under the nonce its header records. */
  lemma SealedCanonical(a: Aead, s: seq<byte>, key: seq<byte>, mode: StorageMode, epoch: nat, username: seq<byte>,
                        model: seq<byte>)
    requires Authentic(a) && DecodeSealed(a, s, key, mode, epoch, username, model).Ok?
    ensures ParseSealedHeader(s, |s|).Ok?
    ensures var r := DecodeSealed(a, s, key, mode, epoch, username, model).value;
            var h := ParseSealedHeader(s, |s|).value.0;
            && ValidRecord(r) && r.username == username && r.model == model
            && h == SealedHeaderOf(r, mode, epoch, h.nonce)
            && EncodeSealed(a, r, mode, epoch, key, h.nonce) == Ok(s)
  {
    hide EncodePayload, DecodePayload, EncodeSealedHeader, ParseSealedHeader, ValidEntry, Range, CanonicalUsername;
    SealedHeaderParsed(s, |s|);
    var (h, body) := ParseSealedHeader(s, |s|).value;
    var (ciphertext, tag) := (body[..h.plaintextLength], body[h.plaintextLength..]);
    Rejoined(body, h.plaintextLength);
    assert s[..|s| - |body|] == EncodeSealedHeader(h);
    assert tag[..GCM_TAG_BYTES] == tag;
    var payload := a.open(key, h.nonce, EncodeSealedHeader(h), ciphertext, tag).value;
    assert a.seal(key, h.nonce, EncodeSealedHeader(h), payload) == (ciphertext, tag);
    PayloadCanonical(payload, Some(h.entryCount));
  }

  /** Exactly the sealings of valid records with the expected bindings, under some nonce, are accepted. */
  lemma SealedAcceptsExactly(a: Aead, s: seq<byte>, key: seq<byte>, mode: StorageMode, epoch: nat, username: seq<byte>,
                             model: seq<byte>, r: Record)
    requires Authentic(a) && epoch < Range(8)
    ensures DecodeSealed(a, s, key, mode, epoch, username, model) == Ok(r) <==>
      && ValidRecord(r) && r.username == username && r.model == model
      && exists nonce: seq<byte> :: |nonce| == 12 && EncodeSealed(a, r, mode, epoch, key, nonce) == Ok(s)
  {
    hide DecodeSealed, EncodeSealed, ValidRecord, Authentic, Range, ParseSealedHeader;
    if DecodeSealed(a, s, key, mode, epoch, username, model) == Ok(r) {
      SealedCanonical(a, s, key, mode, epoch, username, model);
      SealedHeaderParsed(s, |s|);
      SealedNonce(ParseSealedHeader(s, |s|).value.0);
    }
    if ValidRecord(r) {
      forall nonce: seq<byte> | |nonce| == 12 && EncodeSealed(a, r, mode, epoch, key, nonce) == Ok(s)
        ensures DecodeSealed(a, s, key, mode, epoch, r.username, r.model) == Ok(r)
      {
        SealedEpoch(a, r, mode, epoch, key, nonce);
        SealedReadsBack(a, r, mode, epoch, key, nonce);
      }
    }
  }

  lemma SealedNonce(h: EncryptedHeader)
    requires ValidSealedHeader(h)
    ensures |h.nonce| == 12
  {}

  lemma SealedEpoch(a: Aead, r: Record, mode: StorageMode, epoch: nat, key: seq<byte>, nonce: seq<byte>)
    requires EncodeSealed(a, r, mode, epoch, key, nonce).Ok?
    ensures epoch > 0
  {}

  /** The same for sealed records: the header fixes the length, under whatever key and bindings. */
  lemma SealedWhole(a: Aead, s: seq<byte>, extra: seq<byte>, key: seq<byte>, mode: StorageMode, epoch: nat,
                    username: seq<byte>, model: seq<byte>, key': seq<byte>, mode': StorageMode, epoch': nat,
                    username': seq<byte>, model': seq<byte>)
    requires DecodeSealed(a, s, key, mode, epoch, username, model).Ok? && extra != []
    ensures DecodeSealed(a, s + extra, key', mode', epoch', username', model').Err?
  {
    hide ParseSealedHeader, EncodeSealedHeader, DecodePayload, ValidSealedHeader, Split;
    if ParseSealedHeader(s + extra, |s + extra|).Ok? {
      SealedHeaderParsed(s, |s|);
      SealedHeaderParsed(s + extra, |s + extra|);
      var (h, rest) := ParseSealedHeader(s, |s|).value;
      var (g, rest') := ParseSealedHeader(s + extra, |s + extra|).value;
      assert s + extra == EncodeSealedHeader(h) + (rest + extra);
      SealedHeaderUnique(h, g, rest + extra, rest');
    }
  }

  lemma SealedHeaderUnique(h: EncryptedHeader, g: EncryptedHeader, rest: seq<byte>, rest': seq<byte>)
    requires ValidSealedHeader(h) && ValidSealedHeader(g)
    requires EncodeSealedHeader(h) + rest == EncodeSealedHeader(g) + rest'
    ensures TotalLength(h) == TotalLength(g)
  {
    hide LittleEndian, Holds;
    SealedHeaderLayout(h, rest);
    SealedHeaderLayout(g, rest');
    HeldAlike(EncodeSealedHeader(h) + rest, 32, 4, h.plaintextLength, g.plaintextLength);
    HeldAlike(EncodeSealedHeader(h) + rest, 42, 2, |h.username|, |g.username|);
  }

  lemma HeldAlike(s: seq<byte>, at: nat, width: nat, n: nat, m: nat)
    requires Holds(s, at, width, n) && Holds(s, at, width, m) && n < Range(width) && m < Range(width)
    ensures n == m
  {
    forall i | 0 <= i < width ensures LittleEndian(n, width)[i] == LittleEndian(m, width)[i] {
      ByteAt(n, width, i);
      ByteAt(m, width, i);
    }
    assert LittleEndian(n, width) == LittleEndian(m, width);
    ReadsBack(n, width);
    ReadsBack(m, width);
  }

  // ----- where every HOWYENC1 field is -----

  lemma FrontHeld(s: seq<byte>, mode: StorageMode, headerLength: nat, rest: seq<byte>)
    requires Within(s, 0, EncodeFront(mode, headerLength) + rest)
    ensures Spells(s, 0, "HOWYENC1") && Holds(s, 8, 2, 1) && Holds(s, 10, 2, 1)
    ensures Holds(s, 12, 1, if mode.AeadCached? then 1 else 2) && Holds(s, 13, 1, 0) && Holds(s, 14, 2, headerLength)
    ensures Within(s, 16, rest)
  {
    hide LittleEndian, Holds, Within;
    var id := if mode.AeadCached? then 1 else 2;
    var s5 := LittleEndian(headerLength, 2) + rest;
    var s4 := LittleEndian(0, 1) + s5;
    var s3 := LittleEndian(id, 1) + s4;
    var s2 := LittleEndian(1, 2) + s3;
    var s1 := LittleEndian(1, 2) + s2;
    Regrouped(SEALED_MAGIC, LittleEndian(1, 2), LittleEndian(1, 2), LittleEndian(id, 1), LittleEndian(0, 1),
              LittleEndian(headerLength, 2), rest);
    PieceWithin(s, 0, SEALED_MAGIC, s1);
    FieldWithin(s, 8, 2, 1, s2);
    FieldWithin(s, 10, 2, 1, s3);
    FieldWithin(s, 12, 1, id, s4);
    FieldWithin(s, 13, 1, 0, s5);
    FieldWithin(s, 14, 2, headerLength, rest);
  }

  lemma MiddleHeld(s: seq<byte>, h: EncryptedHeader, rest: seq<byte>)
    requires Within(s, 16, EncodeMiddle(h) + rest)
    ensures Holds(s, 16, 8, h.epoch) && Holds(s, 24, 8, h.generation)
    ensures Holds(s, 32, 4, h.plaintextLength) && Holds(s, 36, 4, h.entryCount) && Within(s, 40, rest)
  {
    hide LittleEndian, Holds, Within;
    var s3 := LittleEndian(h.entryCount, 4) + rest;
    var s2 := LittleEndian(h.plaintextLength, 4) + s3;
    var s1 := LittleEndian(h.generation, 8) + s2;
    FourRegrouped(LittleEndian(h.epoch, 8), LittleEndian(h.generation, 8), LittleEndian(h.plaintextLength, 4),
                  LittleEndian(h.entryCount, 4), rest);
    FieldWithin(s, 16, 8, h.epoch, s1);
    FieldWithin(s, 24, 8, h.generation, s2);
    FieldWithin(s, 32, 4, h.plaintextLength, s3);
    FieldWithin(s, 36, 4, h.entryCount, rest);
  }

  lemma TailHeld(s: seq<byte>, h: EncryptedHeader, rest: seq<byte>)
    requires |h.model| == 32 && |h.nonce| == 12 && Within(s, 40, EncodeTail(h) + rest)
    ensures Holds(s, 40, 2, 512) && Holds(s, 42, 2, |h.username|)
    ensures Within(s, 44, h.model) && Within(s, 76, h.nonce) && Within(s, 88, rest)
  {
    hide LittleEndian, Holds, Within;
    var s3 := h.nonce + rest;
    var s2 := h.model + s3;
    var s1 := LittleEndian(|h.username|, 2) + s2;
    FourRegrouped(LittleEndian(512, 2), LittleEndian(|h.username|, 2), h.model, h.nonce, rest);
    FieldWithin(s, 40, 2, 512, s1);
    FieldWithin(s, 42, 2, |h.username|, s2);
    PieceWithin(s, 44, h.model, s3);
    PieceWithin(s, 76, h.nonce, rest);
  }

  /** The public header byte by byte, whatever follows it. */
  lemma SealedHeaderLayout(h: EncryptedHeader, rest: seq<byte>)
    requires |h.model| == 32 && |h.nonce| == 12
    ensures var (s, n) := (EncodeSealedHeader(h) + rest, |h.username|);
            && Spells(s, 0, "HOWYENC1")
            && Holds(s, 8, 2, 1) && Holds(s, 10, 2, 1)
            && Holds(s, 12, 1, if h.mode.AeadCached? then 1 else 2) && Holds(s, 13, 1, 0)
            && Holds(s, 14, 2, 88 + n)
            && Holds(s, 16, 8, h.epoch) && Holds(s, 24, 8, h.generation)
            && Holds(s, 32, 4, h.plaintextLength) && Holds(s, 36, 4, h.entryCount)
            && Holds(s, 40, 2, 512) && Holds(s, 42, 2, n)
            && |s| >= 88 + n && s[44..76] == h.model && s[76..88] == h.nonce && s[88..88 + n] == h.username
            && s[88 + n..] == rest
  {
    hide EncodeFront, EncodeMiddle, EncodeTail, Holds, Spells;
    var s := EncodeSealedHeader(h) + rest;
    var s2 := EncodeTail(h) + (h.username + rest);
    FourRegrouped(EncodeFront(h.mode, HeaderLength(h)), EncodeMiddle(h), EncodeTail(h), h.username, rest);
    WholeWithin(s);
    FrontHeld(s, h.mode, HeaderLength(h), EncodeMiddle(h) + s2);
    MiddleHeld(s, h, s2);
    TailHeld(s, h, h.username + rest);
    PieceWithin(s, 88, h.username, rest);
    SealedHeaderSize(h);
  }

  lemma SealedHeaderSize(h: EncryptedHeader)
    requires |h.model| == 32 && |h.nonce| == 12
    ensures |EncodeSealedHeader(h)| == 88 + |h.username|
  {
    hide LittleEndian;
  }

  /** A HOWYENC1 record after its header: the ciphertext and its tag open, with the header's own bytes as associated
      data, to the canonical payload. */
  lemma SealedLayout(a: Aead, r: Record, mode: StorageMode, epoch: nat, key: seq<byte>, nonce: seq<byte>)
    requires Authentic(a) && ValidRecord(r) && epoch > 0 && |nonce| == 12
    ensures EncodeSealed(a, r, mode, epoch, key, nonce).Ok?
    ensures var s := EncodeSealed(a, r, mode, epoch, key, nonce).value;
            var (n, payload) := (88 + |r.username|, EncodePayload(r.entries));
            && |s| == n + |payload| + 16
            && s[..n] == EncodeSealedHeader(EncryptedHeader(mode, epoch, r.generation, |payload|, |r.entries|,
                                                            r.model, nonce, r.username))
            && a.open(key, nonce, s[..n], s[n..n + |payload|], s[n + |payload|..]) == Some(payload)
  {
    hide EncodePayload, EncodeSealedHeader, ValidEntries, CanonicalUsername;
    var h := SealedHeaderOf(r, mode, epoch, nonce);
    SealedHeaderSize(h);
    var header, payload := EncodeSealedHeader(h), EncodePayload(r.entries);
    var (ciphertext, tag) := a.seal(key, nonce, header, payload);
    assert |ciphertext| == |payload| && |tag| == 16;
    var s, n := header + (ciphertext + tag), |header|;
    assert s[..n] == header && s[n..n + |payload|] == ciphertext && s[n + |payload|..] == tag;
    assert a.open(key, nonce, header, ciphertext, tag) == Some(payload);
  }

  // ----- inspecting a HOWYENC1 header -----

  function CheckedConfiguredPlaintext(max: nat): Decoded<()> {
    if max == 0 || max > MAX_PLAINTEXT_BYTES then Err(LimitExceeded("HOWYENC1 plaintext")) else Ok(())
  }

  function InspectSealed(prefix: seq<byte>, sourceLength: nat, mode: StorageMode, epoch: nat, username: seq<byte>,
                         model: seq<byte>, maxEntries: nat, maxPlaintext: nat): Decoded<EncryptedHeader>
  {
    var _ :- CheckedLength(SEALED_FIXED_HEADER <= |prefix| <= SEALED_FIXED_HEADER + 64, SEALED);
    var _ :- CheckedConfiguredEntries(maxEntries);
    var _ :- CheckedConfiguredPlaintext(maxPlaintext);
    var (h, _) :- ParseSealedHeader(prefix, sourceLength);
    var _ :- CheckedLength(|prefix| == HeaderLength(h), SEALED);
    var _ :- CheckedInspectedCount(h.entryCount, maxEntries);
    var _ :- CheckedPlaintextLength(h.plaintextLength, maxPlaintext);
    var _ :- CheckedBindings(h, mode, epoch, username, model);
    Ok(h)
  }

  /** Whatever decodes in full inspects the same from its header bytes and its length alone. */
  lemma SealedInspectionAgrees(a: Aead, s: seq<byte>, key: seq<byte>, mode: StorageMode, epoch: nat,
                               username: seq<byte>, model: seq<byte>, maxEntries: nat, maxPlaintext: nat)
    requires Authentic(a) && DecodeSealed(a, s, key, mode, epoch, username, model).Ok?
    requires ParseSealedHeader(s, |s|).Ok?
    requires ParseSealedHeader(s, |s|).value.0.entryCount <= maxEntries && 1 <= maxEntries <= MAX_ENTRIES
    requires ParseSealedHeader(s, |s|).value.0.plaintextLength <= maxPlaintext <= MAX_PLAINTEXT_BYTES
    ensures var r := DecodeSealed(a, s, key, mode, epoch, username, model).value;
            var h := ParseSealedHeader(s, |s|).value.0;
            && HeaderLength(h) <= |s|
            && InspectSealed(s[..HeaderLength(h)], |s|, mode, epoch, username, model, maxEntries, maxPlaintext) == Ok(h)
            && h.generation == r.generation && h.entryCount == |r.entries|
  {
    hide EncodePayload, DecodeSealed, EncodeSealedHeader, ParseSealedHeader, ValidRecord, Range, CanonicalUsername,
         EncodeSealed;
    SealedCanonical(a, s, key, mode, epoch, username, model);
    SealedHeaderParsed(s, |s|);
    var (h, body) := ParseSealedHeader(s, |s|).value;
    UsernameLength(h.username);
    SealedHeaderReadsBack(h, []);
    assert EncodeSealedHeader(h) + [] == EncodeSealedHeader(h) == s[..HeaderLength(h)];
  }

  /** Inspection accepts exactly a valid header with the expected bindings and within the configured limits, in front
      of a source of the length it announces. */
  lemma SealedInspectedExactly(prefix: seq<byte>, sourceLength: nat, mode: StorageMode, epoch: nat, username: seq<byte>,
                               model: seq<byte>, maxEntries: nat, maxPlaintext: nat, h: EncryptedHeader)
    ensures InspectSealed(prefix, sourceLength, mode, epoch, username, model, maxEntries, maxPlaintext) == Ok(h) <==>
      && 1 <= maxEntries <= MAX_ENTRIES && h.entryCount <= maxEntries
      && 1 <= maxPlaintext <= MAX_PLAINTEXT_BYTES && h.plaintextLength <= maxPlaintext
      && h.mode == mode && h.epoch == epoch && h.username == username && h.model == model
      && ValidSealedHeader(h)
      && prefix == EncodeSealedHeader(h)
      && sourceLength == |prefix| + h.plaintextLength + 16
  {
    hide ParseSealedHeader, EncodeSealedHeader, Range, CanonicalUsername;
    if ParseSealedHeader(prefix, sourceLength).Ok? {
      SealedHeaderParsed(prefix, sourceLength);
      var (k, rest) := ParseSealedHeader(prefix, sourceLength).value;
      SealedHeaderReadsBack(k, rest);
      assert |prefix| == HeaderLength(k) ==> EncodeSealedHeader(k) + rest == EncodeSealedHeader(k);
    }
    if ValidSealedHeader(h) {
      UsernameLength(h.username);
      SealedHeaderReadsBack(h, []);
      assert EncodeSealedHeader(h) + [] == EncodeSealedHeader(h);
    }
  }

  // ----- the implementations -----

  method EncodeHowypln1(r: Record) returns (out: Decoded<seq<byte>>)
    requires ValidRecord(r)
    ensures out == Ok(EncodePlain(r))
  {
    hide EncodePayload, ValidEntry, LittleEndian;
    assert forall i :: 0 <= i < |r.entries| ==> Shaped(r.entries[i]) by { RecordShaped(r); }
    var encoded := EncodeCanonicalPayload(r.entries);
    var output := PLAIN_MAGIC + LittleEndian(FORMAT_VERSION, 2) + LittleEndian(0, 2) + LittleEndian(r.generation, 8);
    output := output + r.model + LittleEndian(|r.username|, 2) + r.username;
    output := output + encoded.value;
    assert output == EncodePlain(r);
    return Ok(output);
  }

  lemma RecordShaped(r: Record)
    requires ValidRecord(r)
    ensures forall i :: 0 <= i < |r.entries| ==> Shaped(r.entries[i])
  {
    forall i | 0 <= i < |r.entries| ensures Shaped(r.entries[i]) { assert ValidEntry(r.entries[i]); }
  }

  /** The HOWYPLN1 header off a reader. */
  method ReadPlainHeader(reader: Reader) returns (r: Decoded<PlainHeader>)
    requires reader.Valid()
    modifies reader
    ensures reader.Valid()
    ensures match ParsePlainHeader(old(reader.Rest()), reader.format)
            case Ok((h, rest)) => r == Ok(h) && reader.Rest() == rest
            case Err(e) => r == Err(e)
  {
    hide FromLittleEndian, Number, CanonicalUsername;
    var magic :- reader.Take(8);
    var _ :- CheckedMagic(magic, PLAIN_MAGIC, PLAIN);
    var version :- reader.ReadNumber(2);
    var _ :- CheckedVersion(version, FORMAT_VERSION, PLAIN);
    var flags :- reader.ReadNumber(2);
    var _ :- CheckedFlags(flags, PLAIN);
    var rawGeneration :- reader.ReadNumber(8);
    var generation :- CheckedGeneration(rawGeneration);
    var model :- reader.Take(32);
    var rawLength :- reader.ReadNumber(2);
    var length :- CheckedUsernameLength(rawLength);
    var rawUsername :- reader.Take(length);
    var username :- CheckedUsername(rawUsername);
    return Ok(PlainHeader(generation, model, username));
  }

  method DecodeHowypln1(bytes: seq<byte>, username: seq<byte>, model: seq<byte>) returns (r: Decoded<Record>)
    ensures r == DecodePlain(bytes, username, model)
  {
    hide ParsePlainHeader, DecodePayload;
    var reader := new Reader(bytes, PLAIN);
    var h :- ReadPlainHeader(reader);
    var _ :- CheckedBinding(h.username == username, "username");
    var _ :- CheckedBinding(h.model == model, "recognizer model");
    var entries :- DecodeCanonicalPayload(reader.Rest(), None);
    r := CheckedRecord(Record(h.generation, h.model, h.username, entries));
  }

  method EncodeHowyenc1WithNonce(a: Aead, r: Record, mode: StorageMode, epoch: nat, key: seq<byte>, nonce: seq<byte>)
    returns (out: Decoded<seq<byte>>)
    requires Authentic(a) && ValidRecord(r) && epoch < Range(8) && |nonce| == 12
    ensures out == EncodeSealed(a, r, mode, epoch, key, nonce)
  {
    hide EncodePayload, ValidEntry, LittleEndian, Range;
    if epoch == 0 { return Err(InvalidEpoch); }
    RecordShaped(r);
    var encoded := EncodeCanonicalPayload(r.entries);
    var payload := encoded.value;
    var header := SEALED_MAGIC + LittleEndian(FORMAT_VERSION, 2) + LittleEndian(AES_256_GCM, 2);
    header := header + LittleEndian(mode.Identifier(), 1) + LittleEndian(0, 1)
        + LittleEndian(SEALED_FIXED_HEADER + |r.username|, 2);
    assert header == EncodeFront(mode, SEALED_FIXED_HEADER + |r.username|);
    var middle := LittleEndian(epoch, 8) + LittleEndian(r.generation, 8) + LittleEndian(|payload|, 4)
        + LittleEndian(|r.entries|, 4);
    var tail := LittleEndian(EMBEDDING_DIMENSION, 2) + LittleEndian(|r.username|, 2) + r.model + nonce;
    ghost var h := SealedHeaderOf(r, mode, epoch, nonce);
    assert middle == EncodeMiddle(h) && tail == EncodeTail(h);
    header := header + middle + tail + r.username;
    HeaderBuilt(h);
    var (ciphertext, tag) := a.seal(key, nonce, header, payload);
    assert header + ciphertext + tag == header + (ciphertext + tag);
    return Ok(header + ciphertext + tag);
  }

  lemma HeaderBuilt(h: EncryptedHeader)
    ensures EncodeFront(h.mode, HeaderLength(h)) + EncodeMiddle(h) + EncodeTail(h) + h.username == EncodeSealedHeader(h)
  {
    hide EncodeFront, EncodeMiddle, EncodeTail;
  }

  method ReadFront(reader: Reader) returns (r: Decoded<Front>)
    requires reader.Valid() && reader.format == SEALED
    modifies reader
    ensures reader.Valid()
    ensures match ParseFront(old(reader.Rest()))
            case Ok((v, rest)) => r == Ok(v) && reader.Rest() == rest
            case Err(e) => r == Err(e)
  {
    hide Number;
    var magic :- reader.Take(8);
    var _ :- CheckedMagic(magic, SEALED_MAGIC, SEALED);
    var version :- reader.ReadNumber(2);
    var _ :- CheckedVersion(version, FORMAT_VERSION, SEALED);
    var algorithm :- reader.ReadNumber(2);
    var _ :- CheckedAlgorithm(algorithm);
    var rawMode :- reader.ReadNumber(1);
    var mode :- CheckedMode(rawMode);
    var flags :- reader.ReadNumber(1);
    var _ :- CheckedFlags(flags, SEALED);
    var headerLength :- reader.ReadNumber(2);
    return Ok((mode, headerLength));
  }

  method ReadMiddle(reader: Reader) returns (r: Decoded<Middle>)
    requires reader.Valid() && reader.format == SEALED
    modifies reader
    ensures reader.Valid()
    ensures match ParseMiddle(old(reader.Rest()))
            case Ok((v, rest)) => r == Ok(v) && reader.Rest() == rest
            case Err(e) => r == Err(e)
  {
    hide Number;
    var rawEpoch :- reader.ReadNumber(8);
    var epoch :- CheckedEpoch(rawEpoch);
    var rawGeneration :- reader.ReadNumber(8);
    var generation :- CheckedGeneration(rawGeneration);
    var rawLength :- reader.ReadNumber(4);
    var length :- CheckedPlaintextLength(rawLength, MAX_PLAINTEXT_BYTES);
    var rawCount :- reader.ReadNumber(4);
    var count :- CheckedInspectedCount(rawCount, MAX_ENTRIES);
    return Ok((epoch, generation, length, count));
  }

  method ReadTail(reader: Reader) returns (r: Decoded<Tail>)
    requires reader.Valid() && reader.format == SEALED
    modifies reader
    ensures reader.Valid()
    ensures match ParseTail(old(reader.Rest()))
            case Ok((v, rest)) => r == Ok(v) && reader.Rest() == rest
            case Err(e) => r == Err(e)
  {
    hide Number;
    var dimension :- reader.ReadNumber(2);
    var _ :- CheckedDimension(dimension);
    var rawLength :- reader.ReadNumber(2);
    var length :- CheckedUsernameLength(rawLength);
    var model :- reader.Take(32);
    var nonce :- reader.Take(12);
    return Ok((length, model, nonce));
  }

  /** The header reader computes the specification from the bytes and the total length. */
  method InspectHowyenc1HeaderPrefix(bytes: seq<byte>, sourceLength: nat) returns (r: Decoded<EncryptedHeader>)
    ensures match ParseSealedHeader(bytes, sourceLength)
            case Ok((h, _)) => r == Ok(h)
            case Err(e) => r == Err(e)
  {
    hide ParseFront, ParseMiddle, ParseTail, AssembleHeader;
    var reader := new Reader(bytes, SEALED);
    var front :- ReadFront(reader);
    var middle :- ReadMiddle(reader);
    var tail :- ReadTail(reader);
    r := FinishHeader(reader, front, middle, tail, sourceLength);
  }

  method FinishHeader(reader: Reader, front: Front, middle: Middle, tail: Tail, sourceLength: nat)
    returns (r: Decoded<EncryptedHeader>)
    requires reader.Valid() && reader.format == SEALED
    modifies reader
    ensures match AssembleHeader(front, middle, tail, old(reader.Rest()), sourceLength)
            case Ok((h, _)) => r == Ok(h)
            case Err(e) => r == Err(e)
  {
    hide CanonicalUsername;
    var (mode, headerLength) := front;
    var (epoch, generation, length, count) := middle;
    var (usernameLength, model, nonce) := tail;
    var _ :- CheckedLength(headerLength == SEALED_FIXED_HEADER + usernameLength, SEALED);
    var _ :- CheckedLength(sourceLength == headerLength + length + GCM_TAG_BYTES, SEALED);
    var _ :- CheckedLength(length >= PAYLOAD_FIXED_BYTES + count * ENTRY_FIXED_BYTES, SEALED);
    var rawUsername :- reader.Take(usernameLength);
    var username :- CheckedUsername(rawUsername);
    return Ok(EncryptedHeader(mode, epoch, generation, length, count, model, nonce, username));
  }

  method DecodeHowyenc1(a: Aead, bytes: seq<byte>, key: seq<byte>, mode: StorageMode, epoch: nat, username: seq<byte>,
                        model: seq<byte>) returns (r: Decoded<Record>)
    ensures r == DecodeSealed(a, bytes, key, mode, epoch, username, model)
  {
    hide ParseSealedHeader, DecodePayload, EncodeSealedHeader, ValidSealedHeader, CheckedBindings;
    var h :- InspectHowyenc1HeaderPrefix(bytes, |bytes|);
    SealedHeaderParsed(bytes, |bytes|);
    ghost var body := ParseSealedHeader(bytes, |bytes|).value.1;
    SealedBodyAt(bytes, h, body);
    var _ :- CheckedBindings(h, mode, epoch, username, model);
    var end := HeaderLength(h) + h.plaintextLength;
    var ciphertext, tag, aad := bytes[HeaderLength(h)..end], bytes[end..], bytes[..HeaderLength(h)];
    var payload :- Opened(a.open(key, h.nonce, aad, ciphertext, tag));
    var _ :- CheckedLength(|payload| == h.plaintextLength, SEALED);
    var entries :- DecodeCanonicalPayload(payload, Some(h.entryCount));
    r := CheckedRecord(Record(h.generation, h.model, h.username, entries));
  }

  lemma SealedBodyAt(s: seq<byte>, h: EncryptedHeader, body: seq<byte>)
    requires ValidSealedHeader(h) && s == EncodeSealedHeader(h) + body && |s| == TotalLength(h)
    ensures var end := HeaderLength(h) + h.plaintextLength;
            && |s| - |body| == HeaderLength(h) && end <= |s|
            && Split(body, h.plaintextLength, Short(SEALED)) == Ok((s[HeaderLength(h)..end], s[end..]))
            && Split(s[end..], GCM_TAG_BYTES, Short(SEALED)) == Ok((s[end..], []))
  {
    hide EncodeSealedHeader, ParseSealedHeader;
    SealedHeaderReadsBack(h, body);
    var end := HeaderLength(h) + h.plaintextLength;
    assert s[HeaderLength(h)..end] == body[..h.plaintextLength] && s[end..] == body[h.plaintextLength..];
    assert s[end..][..GCM_TAG_BYTES] == s[end..] && s[end..][GCM_TAG_BYTES..] == [];
  }
}
