/**
 Enrollment records and the errors of their codecs. An embedding is kept as the 512
 bit patterns of its f32 values.
 */
module StorageTypes {
  import opened Wrappers
  import opened Bytes

  const EMBEDDING_DIMENSION: nat := 512
  const MAX_ENTRIES: nat := 1_000
  const MAX_LABEL_BYTES: nat := 256
  const MAX_PLAINTEXT_BYTES: nat := 2_621_440
  const GCM_TAG_BYTES: nat := 16
  const PAYLOAD_FIXED_BYTES: nat := 8
  const ENTRY_FIXED_BYTES: nat := 16 + 8 + 2 + 2 + EMBEDDING_DIMENSION * 4

  datatype StorageError =
    | InvalidUsername
    | InvalidMagic(format: string)
    | UnsupportedVersion(format: string, version: nat)
    | UnsupportedAlgorithm(algorithm: nat)
    | UnsupportedMode(mode: nat)
    | UnknownFlags(format: string, flags: nat)
    | InvalidReserved(format: string)
    | InvalidLength(format: string)
    | LimitExceeded(field: string)
    | InvalidGeneration
    | InvalidEpoch
    | InvalidEmbeddingDimension(dimension: nat)
    | EntryCountMismatch
    | ZeroEnrollmentId
    | DuplicateEnrollmentId
    | InvalidLabelUtf8
    | NonFiniteEmbedding
    | BindingMismatch(binding: string)
    | AuthenticationFailed

  type Decoded<T> = Result<T, StorageError>

  datatype Entry = Entry(id: seq<byte>, created: nat, name: seq<byte>, embedding: seq<nat>)

  datatype Record = Record(generation: nat, model: seq<byte>, username: seq<byte>, entries: seq<Entry>)

  datatype StorageMode = AeadCached | AeadEphemeral {
    function Identifier(): byte { if AeadCached? then 1 else 2 }
  }

  /** An f32 bit pattern whose exponent is not all ones. */
  predicate Finite(bits: nat) { bits < Range(4) && bits / 0x80_0000 % 256 != 255 }

  predicate ZeroId(id: seq<byte>) { forall i :: 0 <= i < |id| ==> id[i] == 0 }

  predicate Continuation(b: byte) { 0x80 <= b <= 0xBF }

  /** The length of the well-formed UTF-8 sequence that `s` starts with, or 0. */
  function Utf8Head(s: seq<byte>): (n: nat)
    ensures n <= |s|
  {
    if |s| >= 1 && s[0] <= 0x7F then 1
    else if |s| >= 2 && 0xC2 <= s[0] <= 0xDF && Continuation(s[1]) then 2
    else if |s| >= 3 && 0xE0 <= s[0] <= 0xEF && Continuation(s[1]) && Continuation(s[2])
            && (s[0] == 0xE0 ==> s[1] >= 0xA0) && (s[0] == 0xED ==> s[1] <= 0x9F) then 3
    else if |s| >= 4 && 0xF0 <= s[0] <= 0xF4 && Continuation(s[1]) && Continuation(s[2]) && Continuation(s[3])
            && (s[0] == 0xF0 ==> s[1] >= 0x90) && (s[0] == 0xF4 ==> s[1] <= 0x8F) then 4
    else 0
  }

  predicate Utf8(s: seq<byte>)
    decreases |s|
  {
    s == [] || (Utf8Head(s) > 0 && Utf8(s[Utf8Head(s)..]))
  }

  // ----- what the label check accepts -----

  /** A Unicode scalar value: a code point that is no surrogate. */
  predicate Scalar(c: nat) { c < 0xD800 || 0xE000 <= c < 0x11_0000 }

  /** The UTF-8 form of a scalar value, as section 3 of RFC 3629 lays it out. */
  function Utf8Of(c: nat): seq<byte>
    requires Scalar(c)
  {
    if c < 0x80 then [c]
    else if c < 0x800 then [0xC0 + c / 64, 0x80 + c % 64]
    else if c < 0x1_0000 then [0xE0 + c / 4_096, 0x80 + c / 64 % 64, 0x80 + c % 64]
    else [0xF0 + c / 262_144, 0x80 + c / 4_096 % 64, 0x80 + c / 64 % 64, 0x80 + c % 64]
  }

  predicate AllScalar(cs: seq<nat>) { forall i :: 0 <= i < |cs| ==> Scalar(cs[i]) }

  function Utf8Text(cs: seq<nat>): seq<byte>
    requires AllScalar(cs)
  {
    if cs == [] then [] else Utf8Of(cs[0]) + Utf8Text(cs[1..])
  }

  lemma HeadOfScalar(c: nat, rest: seq<byte>)
    requires Scalar(c)
    ensures Utf8Head(Utf8Of(c) + rest) == |Utf8Of(c)|
  {
    if c < 0x80 {
      HeadByte([c], rest);
    } else if c < 0x800 {
      HeadByte([0xC0 + c / 64, 0x80 + c % 64], rest);
    } else if c < 0x1_0000 {
      HeadByte([0xE0 + c / 4_096, 0x80 + c / 64 % 64, 0x80 + c % 64], rest);
    } else {
      HeadByte([0xF0 + c / 262_144, 0x80 + c / 4_096 % 64, 0x80 + c / 64 % 64, 0x80 + c % 64], rest);
    }
  }

  lemma HeadByte(s: seq<byte>, rest: seq<byte>)
    ensures forall i :: 0 <= i < |s| ==> (s + rest)[i] == s[i]
  {}

  /** Base-64 digits are read back. */
  lemma SextetsRead(a: nat, b: nat, c: nat, d: nat)
    requires b < 64 && c < 64 && d < 64
    ensures var n := ((a * 64 + b) * 64 + c) * 64 + d;
            n % 64 == d && n / 64 == (a * 64 + b) * 64 + c && n / 4_096 == a * 64 + b && n / 262_144 == a
    ensures ((a * 64 + b) * 64 + c) % 64 == c && (a * 64 + b) % 64 == b
  {}

  lemma ScalarOfHead(s: seq<byte>) returns (c: nat)
    requires Utf8Head(s) > 0
    ensures Scalar(c) && Utf8Of(c) == s[..Utf8Head(s)]
  {
    var n := Utf8Head(s);
    if n == 1 {
      c := s[0];
    } else if n == 2 {
      c := ScalarOfTwo(s);
    } else if n == 3 {
      c := ScalarOfThree(s);
    } else {
      c := ScalarOfFour(s);
    }
  }

  lemma ScalarOfTwo(s: seq<byte>) returns (c: nat)
    requires Utf8Head(s) == 2
    ensures Scalar(c) && Utf8Of(c) == s[..2]
  {
    var a: nat, b: nat := s[0] - 0xC0, s[1] - 0x80;
    SextetsRead(0, 0, a, b);
    c := a * 64 + b;
  }

  lemma ScalarOfThree(s: seq<byte>) returns (c: nat)
    requires Utf8Head(s) == 3
    ensures Scalar(c) && Utf8Of(c) == s[..3]
  {
    var a: nat, b: nat, d: nat := s[0] - 0xE0, s[1] - 0x80, s[2] - 0x80;
    SextetsRead(0, a, b, d);
    c := (a * 64 + b) * 64 + d;
  }

  lemma ScalarOfFour(s: seq<byte>) returns (c: nat)
    requires Utf8Head(s) > 3
    ensures Utf8Head(s) == 4 && Scalar(c) && Utf8Of(c) == s[..4]
  {
    var a: nat, b: nat, d: nat, e: nat := s[0] - 0xF0, s[1] - 0x80, s[2] - 0x80, s[3] - 0x80;
    SextetsRead(a, b, d, e);
    c := ((a * 64 + b) * 64 + d) * 64 + e;
  }

  lemma {:induction false} TextIsUtf8(cs: seq<nat>)
    requires AllScalar(cs)
    ensures Utf8(Utf8Text(cs))
  {
    hide Utf8Head, Utf8Of, Scalar;
    if cs != [] {
      TextIsUtf8(cs[1..]);
      HeadOfScalar(cs[0], Utf8Text(cs[1..]));
      ScalarTakesSpace(cs[0]);
      assert Utf8Text(cs)[|Utf8Of(cs[0])|..] == Utf8Text(cs[1..]);
    }
  }

  lemma ScalarTakesSpace(c: nat)
    requires Scalar(c)
    ensures |Utf8Of(c)| > 0
  {}

  lemma {:induction false} Utf8IsText(s: seq<byte>) returns (cs: seq<nat>)
    requires Utf8(s)
    ensures AllScalar(cs) && Utf8Text(cs) == s
    decreases |s|
  {
    hide Utf8Head, Utf8Of, Scalar;
    if s == [] {
      cs := [];
    } else {
      var c := ScalarOfHead(s);
      var rest := Utf8IsText(s[Utf8Head(s)..]);
      cs := [c] + rest;
      assert cs[1..] == rest;
    }
  }

  /** A label is accepted exactly when it is the UTF-8 form of some scalar values. */
  lemma Utf8Exactly(s: seq<byte>)
    ensures Utf8(s) <==> exists cs: seq<nat> :: AllScalar(cs) && Utf8Text(cs) == s
  {
    hide Utf8, Utf8Text, AllScalar;
    if Utf8(s) {
      var cs := Utf8IsText(s);
    }
    forall cs: seq<nat> | AllScalar(cs) && Utf8Text(cs) == s ensures Utf8(s) { TextIsUtf8(cs); }
  }

  predicate UsernameByte(b: byte) {
    || 0x30 <= b <= 0x39 || 0x41 <= b <= 0x5A || 0x61 <= b <= 0x7A
    || b == 0x2E || b == 0x5F || b == 0x2D
  }

  predicate CanonicalUsername(s: seq<byte>) {
    1 <= |s| <= 64 && forall i :: 0 <= i < |s| ==> UsernameByte(s[i])
  }

  predicate ValidEntry(e: Entry) {
    && |e.id| == 16 && !ZeroId(e.id)
    && e.created < Range(8)
    && |e.name| <= MAX_LABEL_BYTES && Utf8(e.name)
    && |e.embedding| == EMBEDDING_DIMENSION
    && forall i :: 0 <= i < |e.embedding| ==> Finite(e.embedding[i])
  }

  predicate Enrolled(es: seq<Entry>, id: seq<byte>) { exists i :: 0 <= i < |es| && es[i].id == id }

  predicate DistinctIds(es: seq<Entry>) { forall i, j :: 0 <= i < j < |es| ==> es[i].id != es[j].id }

  predicate ValidEntries(es: seq<Entry>) {
    |es| <= MAX_ENTRIES && DistinctIds(es) && forall i :: 0 <= i < |es| ==> ValidEntry(es[i])
  }

  predicate ValidRecord(r: Record) {
    && 0 < r.generation < Range(8)
    && |r.model| == 32
    && CanonicalUsername(r.username)
    && ValidEntries(r.entries)
  }
}
