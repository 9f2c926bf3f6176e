/** Packed self-delimiting envelopes: the walker, signed transactions and NFT mint owners. */
module Wire {
  import opened Bytes
  import opened Sorting

  /** Every envelope starts with a type and a shape byte; the message behind
      them has a 16-byte header whose last four bytes hold its size. */
  const ENVELOPE_PREFIX := 2
  const HEADER_SIZE := 16
  const SIZE_OFFSET := 12

  const SHAPE_CREDENTIAL: Byte := 0x06
  const TYPE_RESERVED: Byte := 0x00

  datatype WireError = ShortEnvelope | WrongShapeKind | WrongTypeKind | BadMessage

  /** Four bytes shifted into place and joined. */
  function Word(b0: Byte, b1: Byte, b2: Byte, b3: Byte): bv32 {
    (b0 as bv32) | ((b1 as bv32) << 8) | ((b2 as bv32) << 16) | ((b3 as bv32) << 24)
  }

  function Half(lo: Byte, hi: Byte): bv16 {
    (lo as bv16) | ((hi as bv16) << 8)
  }

  function Join(lo: bv16, hi: bv16): bv32 {
    (lo as bv32) | ((hi as bv32) << 16)
  }

  lemma HalfIsNumber(lo: Byte, hi: Byte)
    ensures Half(lo, hi) as nat == lo as nat + 0x100 * (hi as nat)
  {
    assert ((lo as bv16) | ((hi as bv16) << 8)) as nat == lo as nat + 0x100 * (hi as nat);
  }

  lemma JoinIsNumber(lo: bv16, hi: bv16)
    ensures Join(lo, hi) as nat == lo as nat + 0x1_0000 * (hi as nat)
  {
    assert ((lo as bv32) | ((hi as bv32) << 16)) as nat == lo as nat + 0x1_0000 * (hi as nat);
  }

  lemma WordIsHalves(b0: Byte, b1: Byte, b2: Byte, b3: Byte)
    ensures Word(b0, b1, b2, b3) == Join(Half(b0, b1), Half(b2, b3))
  {
  }

  function LittleEndian(b0: Byte, b1: Byte, b2: Byte, b3: Byte): nat {
    Word(b0, b1, b2, b3) as nat
  }

  /** The shifts and joins read a number, lowest byte first. */
  lemma LittleEndianIsNumber(b0: Byte, b1: Byte, b2: Byte, b3: Byte)
    ensures LittleEndian(b0, b1, b2, b3)
         == b0 as nat + 0x100 * (b1 as nat) + 0x1_0000 * (b2 as nat) + 0x100_0000 * (b3 as nat)
  {
    WordIsHalves(b0, b1, b2, b3);
    HalfIsNumber(b0, b1);
    HalfIsNumber(b2, b3);
    JoinIsNumber(Half(b0, b1), Half(b2, b3));
    hide Word, Half, Join;
  }

  /** The little-endian uint32 at a position. */
  function SizeField(b: Bytes, at: nat): nat
    requires at + 4 <= |b|
  {
    LittleEndian(b[at], b[at + 1], b[at + 2], b[at + 3])
  }

  function MessageSize(blob: Bytes): nat
    requires |blob| >= ENVELOPE_PREFIX + HEADER_SIZE
  {
    SizeField(blob, ENVELOPE_PREFIX + SIZE_OFFSET)
  }

  /** An envelope whose size field is the length of its message. */
  predicate WellFormed(env: Bytes) {
    |env| >= ENVELOPE_PREFIX + HEADER_SIZE && MessageSize(env) == |env| - ENVELOPE_PREFIX
  }

  /** The size field as a number: an envelope is well formed exactly when bytes
      14 to 17, lowest first, count the bytes behind the prefix. */
  lemma WellFormedIff(env: Bytes)
    ensures WellFormed(env) <==>
              |env| >= 18 && |env| == 2 + env[14] as nat + 0x100 * (env[15] as nat) + 0x1_0000 * (env[16] as nat)
                       + 0x100_0000 * (env[17] as nat)
  {
    hide LittleEndian;
    if |env| >= 18 {
      LittleEndianIsNumber(env[14], env[15], env[16], env[17]);
    }
  }

  function Concat(bs: seq<Bytes>): Bytes {
    if bs == [] then [] else bs[0] + Concat(bs[1..])
  }

  // ----- the walker -----

  /** NextEnvelope: split the first envelope off; no byte is lost, and what is split off is well formed. */
  function NextEnvelope(blob: Bytes): (r: Result<(Bytes, Bytes), WireError>)
    ensures r.Success? ==> r.value.0 + r.value.1 == blob && WellFormed(r.value.0)
  {
    if |blob| < ENVELOPE_PREFIX + HEADER_SIZE then Failure(ShortEnvelope)
    else
      var end := ENVELOPE_PREFIX + MessageSize(blob);
      if MessageSize(blob) < HEADER_SIZE || end > |blob| then Failure(ShortEnvelope)
      else Success((blob[..end], blob[end..]))
  }

  /** It undoes concatenation. */
  lemma NextUndoesConcat(env: Bytes, rest: Bytes)
    requires WellFormed(env)
    ensures NextEnvelope(env + rest) == Success((env, rest))
    ensures FirstEnvelope(env + rest) == Some((env, rest))
  {
    hide LittleEndian;
    assert MessageSize(env + rest) == MessageSize(env);
    assert (env + rest)[..|env|] == env && (env + rest)[|env|..] == rest;
  }

  /** Walking a whole blob. */
  function SplitAll(blob: Bytes): Option<seq<Bytes>>
    decreases |blob|
  {
    if blob == [] then Some([])
    else
      var next := NextEnvelope(blob);
      if next.Failure? then None
      else
        var rest := SplitAll(next.value.1);
        if rest.None? then None else Some([next.value.0] + rest.value)
  }

  ghost predicate AllWellFormed(envs: seq<Bytes>) {
    forall e :: e in envs ==> WellFormed(e)
  }

  /** The walk finds exactly the list of well-formed envelopes that the blob is the concatenation of. */
  lemma {:induction false} SplitAllIff(blob: Bytes, envs: seq<Bytes>)
    ensures SplitAll(blob) == Some(envs) <==> Concat(envs) == blob && AllWellFormed(envs)
    decreases |blob| + |envs|
  {
    hide LittleEndian, NextEnvelope, WellFormed;
    if envs == [] {
    } else {
      if AllWellFormed(envs) && Concat(envs) == blob {
        assert envs[0] in envs;
        NextUndoesConcat(envs[0], Concat(envs[1..]));
        assert forall e :: e in envs[1..] ==> e in envs;
        SplitAllIff(Concat(envs[1..]), envs[1..]);
        assert [envs[0]] + envs[1..] == envs;
        LongEnough(envs[0]);
      }
      if SplitAll(blob) == Some(envs) {
        var next := NextEnvelope(blob);
        assert envs[1..] == SplitAll(next.value.1).value;
        SplitAllIff(next.value.1, envs[1..]);
        forall e | e in envs ensures WellFormed(e) {
          assert e == envs[0] || e in envs[1..];
        }
      }
    }
  }

  lemma LongEnough(env: Bytes)
    requires WellFormed(env)
    ensures |env| >= ENVELOPE_PREFIX + HEADER_SIZE
  {
  }

  /** So equal concatenations of well-formed envelopes come from equal lists. */
  lemma ConcatIsInjective(a: seq<Bytes>, b: seq<Bytes>)
    requires AllWellFormed(a) && AllWellFormed(b) && Concat(a) == Concat(b)
    ensures a == b
  {
    SplitAllIff(Concat(a), a);
    SplitAllIff(Concat(b), b);
  }

  method ConcatAll(bs: seq<Bytes>) returns (blob: Bytes)
    ensures blob == Concat(bs)
  {
    blob := [];
    var i := 0;
    while i < |bs|
      invariant i <= |bs| && blob + Concat(bs[i..]) == Concat(bs)
    {
      assert bs[i..][1..] == bs[i + 1..];
      blob := blob + bs[i];
      i := i + 1;
    }
  }

  // ----- signed transactions -----

  /** A parsed credential: its type byte and its message. */
  datatype Credential = Credential(tk: Byte, msg: Bytes)

  /** zap.Parse: the message it finds at the start of the bytes, if any. */
  type Parse = Bytes -> Option<Bytes>

  function WrapCredential(parse: Parse, b: Bytes): Result<Credential, WireError> {
    if |b| < ENVELOPE_PREFIX then Failure(ShortEnvelope)
    else if b[1] != SHAPE_CREDENTIAL then Failure(WrongShapeKind)
    else if b[0] == TYPE_RESERVED then Failure(WrongTypeKind)
    else
      var msg := parse(b[ENVELOPE_PREFIX..]);
      if msg.None? then Failure(BadMessage) else Success(Credential(b[0], msg.value))
  }

  /** The fields of a SignedTx, as they are stored and read back. */
  datatype SignedTx = SignedTx(unsigned: Bytes, count: uint32, blob: Bytes)

  /** The split inlined in CredentialAt and AllCredentials: unlike NextEnvelope it sets no lower bound on the size. */
  function FirstEnvelope(blob: Bytes): Option<(Bytes, Bytes)> {
    if |blob| < ENVELOPE_PREFIX + HEADER_SIZE then None
    else
      var end := ENVELOPE_PREFIX + MessageSize(blob);
      if end > |blob| then None else Some((blob[..end], blob[end..]))
  }

  /** Parse the first n credentials. */
  function ParseAll(parse: Parse, blob: Bytes, n: nat): Result<seq<Credential>, WireError> {
    if n == 0 then Success([])
    else
      var first := FirstEnvelope(blob);
      if first.None? then Failure(ShortEnvelope)
      else
        var c := WrapCredential(parse, first.value.0);
        if c.Failure? then Failure(c.error)
        else
          Prepend([c.value], ParseAll(parse, first.value.1, n - 1))
  }

  function Prepend<T, E>(front: seq<T>, rest: Result<seq<T>, E>): Result<seq<T>, E> {
    if rest.Failure? then rest else Success(front + rest.value)
  }

  lemma Prepended<T, E>(front: seq<T>, rest: Result<seq<T>, E>)
    ensures Prepend([], rest) == rest
    ensures Prepend(front, Success([])) == Result<seq<T>, E>.Success(front)
  {
    if rest.Success? {
      assert [] + rest.value == rest.value;
    }
    assert front + [] == front;
  }

  lemma PrependedTwice<T, E>(front: seq<T>, x: T, rest: Result<seq<T>, E>)
    ensures Prepend(front, Prepend([x], rest)) == Prepend(front + [x], rest)
  {
    if rest.Success? {
      assert front + ([x] + rest.value) == front + [x] + rest.value;
    }
  }

  /** Skip i envelopes, parse the next. */
  function ParseAt(parse: Parse, blob: Bytes, i: nat): Result<Credential, WireError> {
    var first := FirstEnvelope(blob);
    if first.None? then Failure(ShortEnvelope)
    else if i == 0 then WrapCredential(parse, first.value.0)
    else ParseAt(parse, first.value.1, i - 1)
  }

  method NewSignedTx(unsigned: Bytes, credentials: seq<Bytes>) returns (s: SignedTx)
    ensures s == SignedTx(unsigned, ToUint32(|credentials|), Concat(credentials))
  {
    var blob := ConcatAll(credentials);
    s := SignedTx(unsigned, ToUint32(|credentials|), blob);
  }

  /** The header read at a cursor: where the envelope there ends. */
  lemma EnvelopeAtCursor(blob: Bytes, cursor: nat)
    requires cursor <= |blob|
    ensures cursor + ENVELOPE_PREFIX + HEADER_SIZE > |blob| ==> FirstEnvelope(blob[cursor..]) == None
    ensures cursor + ENVELOPE_PREFIX + HEADER_SIZE <= |blob| ==>
              var size := SizeField(blob, cursor + ENVELOPE_PREFIX + SIZE_OFFSET);
              var end := cursor + ENVELOPE_PREFIX + size;
              && size == MessageSize(blob[cursor..])
              && (end > |blob| ==> FirstEnvelope(blob[cursor..]) == None)
              && (end <= |blob| ==> FirstEnvelope(blob[cursor..]) == Some((blob[cursor..end], blob[end..])))
  {
    hide LittleEndian;
    if cursor + ENVELOPE_PREFIX + HEADER_SIZE <= |blob| {
      var tail := blob[cursor..];
      assert SizeField(blob, cursor + ENVELOPE_PREFIX + SIZE_OFFSET) == MessageSize(tail);
      var end := ENVELOPE_PREFIX + MessageSize(tail);
      if end <= |tail| {
        assert tail[..end] == blob[cursor..cursor + end] && tail[end..] == blob[cursor + end..];
      }
    }
  }

  lemma AllInPlain(parse: Parse, blob: Bytes, n: nat)
    ensures ParseAll(parse, blob, n).Success? ==>
              var cs := ParseAll(parse, blob, n).value;
              && Frames(blob, n).Some? && |cs| == n
              && forall i :: 0 <= i < n ==> ReadFrom(parse, Frames(blob, n).value[i], cs[i])
  {
    if ParseAll(parse, blob, n).Success? {
      AllInPlainTerms(parse, blob, n, ParseAll(parse, blob, n).value);
    }
  }

  lemma AtInPlain(parse: Parse, blob: Bytes, i: nat)
    ensures ParseAt(parse, blob, i).Success? ==>
              Frames(blob, i + 1).Some? && ReadFrom(parse, Frames(blob, i + 1).value[i], ParseAt(parse, blob, i).value)
  {
    if ParseAt(parse, blob, i).Success? {
      AtInPlainTerms(parse, blob, i, ParseAt(parse, blob, i).value);
    }
  }

  /** AllCredentials */
  method AllCredentials(parse: Parse, s: SignedTx) returns (r: Result<seq<Credential>, WireError>)
    ensures r == ParseAll(parse, s.blob, s.count)
    ensures r.Success? ==>
              && Frames(s.blob, s.count).Some? && |r.value| == s.count
              && forall i :: 0 <= i < s.count ==> ReadFrom(parse, Frames(s.blob, s.count).value[i], r.value[i])
  {
    AllInPlain(parse, s.blob, s.count);
    hide Frames, ReadFrom, SizeField, FirstEnvelope, WrapCredential;
    var out: seq<Credential> := [];
    var cursor: nat := 0;
    var k: nat := 0;
    assert s.blob[cursor..] == s.blob;
    Prepended(out, ParseAll(parse, s.blob, s.count));
    while k < s.count
      invariant k <= s.count && cursor <= |s.blob|
      invariant ParseAll(parse, s.blob, s.count) == Prepend(out, ParseAll(parse, s.blob[cursor..], s.count - k))
    {
      EnvelopeAtCursor(s.blob, cursor);
      if cursor + ENVELOPE_PREFIX > |s.blob| {
        return Failure(ShortEnvelope);
      }
      var zapStart := cursor + ENVELOPE_PREFIX;
      if zapStart + HEADER_SIZE > |s.blob| {
        return Failure(ShortEnvelope);
      }
      var envEnd := zapStart + SizeField(s.blob, zapStart + SIZE_OFFSET);
      if envEnd > |s.blob| {
        return Failure(ShortEnvelope);
      }
      var c := WrapCredential(parse, s.blob[cursor..envEnd]);
      if c.Failure? {
        return Failure(c.error);
      }
      PrependedTwice(out, c.value, ParseAll(parse, s.blob[envEnd..], s.count - k - 1));
      out := out + [c.value];
      cursor := envEnd;
      k := k + 1;
    }
    Prepended(out, ParseAll(parse, s.blob[cursor..], 0));
    return Success(out);
  }

  /** One step of skipping, at a cursor. */
  lemma ParseAtCursor(parse: Parse, blob: Bytes, cursor: nat, j: nat)
    requires cursor <= |blob|
    ensures cursor + ENVELOPE_PREFIX + HEADER_SIZE > |blob| ==>
              ParseAt(parse, blob[cursor..], j) == Failure(ShortEnvelope)
    ensures cursor + ENVELOPE_PREFIX + HEADER_SIZE <= |blob| ==>
              var end := cursor + ENVELOPE_PREFIX + SizeField(blob, cursor + ENVELOPE_PREFIX + SIZE_OFFSET);
              ParseAt(parse, blob[cursor..], j) ==
                if end > |blob| then Failure(ShortEnvelope)
                else if j == 0 then WrapCredential(parse, blob[cursor..end])
                else ParseAt(parse, blob[end..], j - 1)
  {
    hide SizeField, FirstEnvelope, WrapCredential;
    EnvelopeAtCursor(blob, cursor);
  }

  /** CredentialAt */
  method CredentialAt(parse: Parse, s: SignedTx, i: uint32) returns (r: Result<Credential, WireError>)
    ensures r == if i >= s.count then Failure(WrongShapeKind) else ParseAt(parse, s.blob, i)
    ensures r.Success? ==>
              Frames(s.blob, i + 1).Some? && ReadFrom(parse, Frames(s.blob, i + 1).value[i], r.value)
  {
    AtInPlain(parse, s.blob, i);
    hide Frames, ReadFrom, SizeField, FirstEnvelope, WrapCredential, ParseAt;
    if i >= s.count {
      return Failure(WrongShapeKind);
    }
    var cursor: nat := 0;
    var k: nat := 0;
    assert s.blob[cursor..] == s.blob;
    while k <= i
      invariant k <= i && cursor <= |s.blob|
      invariant ParseAt(parse, s.blob, i) == ParseAt(parse, s.blob[cursor..], i - k)
      decreases i - k
    {
      ParseAtCursor(parse, s.blob, cursor, i - k);
      if cursor + ENVELOPE_PREFIX > |s.blob| {
        return Failure(ShortEnvelope);
      }
      var zapStart := cursor + ENVELOPE_PREFIX;
      if zapStart + HEADER_SIZE > |s.blob| {
        return Failure(ShortEnvelope);
      }
      var envEnd := zapStart + SizeField(s.blob, zapStart + SIZE_OFFSET);
      if envEnd > |s.blob| {
        return Failure(ShortEnvelope);
      }
      if k == i {
        return WrapCredential(parse, s.blob[cursor..envEnd]);
      }
      cursor := envEnd;
      k := k + 1;
    }
    assert false;
  }

  /** Wherever parsing all credentials succeeds, parsing each by its index finds the same one. */
  lemma {:induction false} AtAgreesWithAll(parse: Parse, blob: Bytes, n: nat, i: nat)
    requires ParseAll(parse, blob, n).Success? && i < n
    ensures |ParseAll(parse, blob, n).value| == n
    ensures ParseAt(parse, blob, i) == Success(ParseAll(parse, blob, n).value[i])
    decreases n
  {
    hide FirstEnvelope, WrapCredential;
    var rest := FirstEnvelope(blob).value.1;
    if n == 1 {
    } else {
      AtAgreesWithAll(parse, rest, n - 1, if i == 0 then 0 else i - 1);
    }
  }

  ghost predicate EachIndexParses(parse: Parse, blob: Bytes, n: nat) {
    forall i: nat :: i < n ==> ParseAt(parse, blob, i).Success?
  }

  /** Parsing all credentials succeeds exactly when parsing each by its index does. */
  lemma {:induction false} AllIffEach(parse: Parse, blob: Bytes, n: nat)
    ensures ParseAll(parse, blob, n).Success? <==> EachIndexParses(parse, blob, n)
    decreases n
  {
    hide FirstEnvelope, WrapCredential;
    if n == 0 {
    } else if ParseAll(parse, blob, n).Success? {
      forall i: nat | i < n ensures ParseAt(parse, blob, i).Success? {
        AtAgreesWithAll(parse, blob, n, i);
      }
    } else if EachIndexParses(parse, blob, n) {
      assert ParseAt(parse, blob, 0).Success?;
      var rest := FirstEnvelope(blob).value.1;
      forall i: nat | i < n - 1 ensures ParseAt(parse, rest, i).Success? {
        assert ParseAt(parse, blob, i + 1).Success?;
      }
      AllIffEach(parse, rest, n - 1);
    }
  }

  /** The first n envelopes that the headers delimit, parsed or not. */
  function Frames(blob: Bytes, n: nat): (r: Option<seq<Bytes>>)
    ensures r.Some? ==> |r.value| == n
    decreases n
  {
    if n == 0 then Some([])
    else
      var first := FirstEnvelope(blob);
      if first.None? then None
      else
        var rest := Frames(first.value.1, n - 1);
        if rest.None? then None else Some([first.value.0] + rest.value)
  }

  /** An index parses exactly when the headers delimit that many envelopes and
      the last of them is a credential; what the others hold does not matter. */
  lemma {:induction false} AtSucceedsIff(parse: Parse, blob: Bytes, i: nat)
    ensures ParseAt(parse, blob, i).Success? <==>
              Frames(blob, i + 1).Some? && WrapCredential(parse, Frames(blob, i + 1).value[i]).Success?
    ensures Frames(blob, i + 1).Some? ==>
              ParseAt(parse, blob, i) == WrapCredential(parse, Frames(blob, i + 1).value[i])
    decreases i
  {
    hide FirstEnvelope, WrapCredential;
    if FirstEnvelope(blob).None? {
    } else {
      var first := FirstEnvelope(blob).value;
      if i == 0 {
        assert Frames(first.1, 0) == Some([]);
      } else {
        AtSucceedsIff(parse, first.1, i - 1);
      }
    }
  }

  lemma {:induction false} FramesPrefix(blob: Bytes, n: nat, i: nat)
    requires Frames(blob, n).Some? && i <= n
    ensures Frames(blob, i).Some? && Frames(blob, i).value == Frames(blob, n).value[..i]
    decreases n
  {
    hide FirstEnvelope;
    if i == 0 {
    } else {
      var first := FirstEnvelope(blob).value;
      FramesPrefix(first.1, n - 1, i - 1);
      TakeCons(Frames(blob, n).value, i);
    }
  }

  /** c is read from this envelope, in plain terms: the type is its first byte, which
      is not reserved; its second byte says credential; the message is what the
      parser finds behind these two. */
  ghost predicate ReadFrom(parse: Parse, env: Bytes, c: Credential) {
    && |env| >= 2 && env[0] == c.tk && c.tk != 0x00 && env[1] == 0x06
    && parse(env[2..]) == Some(c.msg)
  }

  lemma WrapIff(parse: Parse, env: Bytes, c: Credential)
    ensures WrapCredential(parse, env) == Success(c) <==> ReadFrom(parse, env, c)
  {
  }

  /** CredentialAt, in plain terms: the i-th delimited envelope, read. */
  lemma AtInPlainTerms(parse: Parse, blob: Bytes, i: nat, c: Credential)
    ensures ParseAt(parse, blob, i) == Success(c) <==>
              Frames(blob, i + 1).Some? && ReadFrom(parse, Frames(blob, i + 1).value[i], c)
  {
    AtSucceedsIff(parse, blob, i);
    if Frames(blob, i + 1).Some? {
      WrapIff(parse, Frames(blob, i + 1).value[i], c);
    }
    hide Frames, WrapCredential, ReadFrom, ParseAt;
  }

  /** AllCredentials, in plain terms: each of the first n delimited envelopes, read, in order. */
  lemma AllInPlainTerms(parse: Parse, blob: Bytes, n: nat, cs: seq<Credential>)
    ensures ParseAll(parse, blob, n) == Success(cs) <==>
              && Frames(blob, n).Some? && |cs| == n
              && forall i :: 0 <= i < n ==> ReadFrom(parse, Frames(blob, n).value[i], cs[i])
  {
    hide Frames, WrapCredential, ReadFrom, ParseAt, ParseAll;
    AllIffEach(parse, blob, n);
    if ParseAll(parse, blob, n) == Success(cs) {
      FramesReach(parse, blob, n);
      AgreeAt(parse, blob, n, 0);
      forall i: nat | i < n ensures |cs| == n && ReadFrom(parse, Frames(blob, n).value[i], cs[i]) {
        AgreeAt(parse, blob, n, i);
        AtInPlainTerms(parse, blob, i, cs[i]);
        FramesPrefix(blob, n, i + 1);
      }
    }
    if && Frames(blob, n).Some? && |cs| == n
       && forall i :: 0 <= i < n ==> ReadFrom(parse, Frames(blob, n).value[i], cs[i])
    {
      forall i: nat | i < n ensures ParseAt(parse, blob, i) == Success(cs[i]) {
        AtInPlainTerms(parse, blob, i, cs[i]);
        FramesPrefix(blob, n, i + 1);
      }
      assert EachIndexParses(parse, blob, n);
      AgreeAt(parse, blob, n, 0);
      forall i: nat | i < n
        ensures |ParseAll(parse, blob, n).value| == n && ParseAll(parse, blob, n).value[i] == cs[i]
      {
        AgreeAt(parse, blob, n, i);
      }
      assert ParseAll(parse, blob, n).value == cs;
    }
  }

  lemma AgreeAt(parse: Parse, blob: Bytes, n: nat, i: nat)
    requires ParseAll(parse, blob, n).Success?
    ensures |ParseAll(parse, blob, n).value| == n
    ensures i < n ==> ParseAt(parse, blob, i) == Success(ParseAll(parse, blob, n).value[i])
  {
    if n == 0 {
    } else if i < n {
      AtAgreesWithAll(parse, blob, n, i);
    } else {
      AtAgreesWithAll(parse, blob, n, 0);
    }
  }

  lemma FramesReach(parse: Parse, blob: Bytes, n: nat)
    requires EachIndexParses(parse, blob, n)
    ensures Frames(blob, n).Some?
  {
    hide Frames, WrapCredential, ParseAt;
    if n == 0 {
      NoFrames(blob);
    } else {
      assert ParseAt(parse, blob, n - 1).Success?;
      AtSucceedsIff(parse, blob, n - 1);
    }
  }

  lemma NoFrames(blob: Bytes)
    ensures Frames(blob, 0) == Some([])
  {
  }

  lemma MessageSizeIs(blob: Bytes)
    requires |blob| >= 18
    ensures MessageSize(blob)
         == blob[14] as nat + 0x100 * (blob[15] as nat) + 0x1_0000 * (blob[16] as nat) + 0x100_0000 * (blob[17] as nat)
  {
    hide LittleEndian;
    LittleEndianIsNumber(blob[14], blob[15], blob[16], blob[17]);
  }

  lemma SplitAtIff(blob: Bytes, env: Bytes, rest: Bytes)
    ensures blob == env + rest <==> |env| <= |blob| && env == blob[..|env|] && rest == blob[|env|..]
  {
  }

  /** The split that both readers make, in plain terms: what the four size bytes count, and the two bytes before. */
  lemma FirstEnvelopeIff(blob: Bytes, env: Bytes, rest: Bytes)
    ensures FirstEnvelope(blob) == Some((env, rest)) <==>
              && blob == env + rest && |blob| >= 18
              && |env| == 2 + blob[14] as nat + 0x100 * (blob[15] as nat) + 0x1_0000 * (blob[16] as nat)
                          + 0x100_0000 * (blob[17] as nat)
  {
    hide MessageSize;
    SplitAtIff(blob, env, rest);
    if |blob| >= 18 {
      MessageSizeIs(blob);
    }
  }

  /** The envelopes that NewSignedTx is meant for. */
  ghost predicate CredentialEnvelopes(parse: Parse, envs: seq<Bytes>) {
    forall e :: e in envs ==> WellFormed(e) && WrapCredential(parse, e).Success?
  }

  function Parsed(parse: Parse, envs: seq<Bytes>): seq<Credential>
    requires forall e :: e in envs ==> WrapCredential(parse, e).Success?
  {
    seq(|envs|, k requires 0 <= k < |envs| => WrapCredential(parse, envs[k]).value)
  }

  lemma {:induction false} ParseConcat(parse: Parse, envs: seq<Bytes>, n: nat)
    requires CredentialEnvelopes(parse, envs) && n <= |envs|
    ensures ParseAll(parse, Concat(envs), n) == Success(Parsed(parse, envs)[..n])
  {
    hide WellFormed, FirstEnvelope, NextEnvelope, WrapCredential;
    if n == 0 {
    } else {
      assert envs[0] in envs;
      NextUndoesConcat(envs[0], Concat(envs[1..]));
      assert forall e :: e in envs[1..] ==> e in envs;
      ParseConcat(parse, envs[1..], n - 1);
      var head := [WrapCredential(parse, envs[0]).value];
      assert Parsed(parse, envs)[..n] == head + Parsed(parse, envs[1..])[..n - 1];
    }
  }

  /** A signed transaction gives back its credentials, in order, exactly when
      they number less than 2^32: the count is stored as a uint32. */
  lemma SignedTxRoundTripIff(parse: Parse, unsigned: Bytes, envs: seq<Bytes>)
    requires CredentialEnvelopes(parse, envs)
    ensures var s := SignedTx(unsigned, ToUint32(|envs|), Concat(envs));
            ParseAll(parse, s.blob, s.count) == Success(Parsed(parse, envs)) <==> |envs| < 0x1_0000_0000
  {
    hide WellFormed, WrapCredential, ParseAll, Concat;
    ParseConcat(parse, envs, ToUint32(|envs|));
    assert |Parsed(parse, envs)[..ToUint32(|envs|)]| == ToUint32(|envs|);
    if |envs| < 0x1_0000_0000 {
      assert Parsed(parse, envs)[..|envs|] == Parsed(parse, envs);
    }
  }

  lemma ConcatTwo(a: Bytes, b: Bytes)
    ensures Concat([a, b]) == a + b
  {
    assert [a, b][1..] == [b] && [b][1..] == [];
    assert Concat([b]) == b + [];
  }

  /** The converse of AtAgreesWithAll fails: CredentialAt skips earlier
      envelopes without parsing them, so it can succeed where AllCredentials fails. */
  lemma AtCanSucceedAlone(parse: Parse, bad: Bytes, good: Bytes)
    requires WellFormed(bad) && bad[1] != SHAPE_CREDENTIAL
    requires WellFormed(good) && WrapCredential(parse, good).Success?
    ensures ParseAt(parse, Concat([bad, good]), 1) == WrapCredential(parse, good)
    ensures ParseAll(parse, Concat([bad, good]), 2) == Failure(WrongShapeKind)
  {
    hide WellFormed, FirstEnvelope, NextEnvelope;
    LongEnough(bad);
    ConcatTwo(bad, good);
    NextUndoesConcat(bad, good);
    NextUndoesConcat(good, []);
    assert good + [] == good;
    assert ParseAt(parse, bad + good, 1) == ParseAt(parse, good, 0);
  }

  // ----- NFT mint owners -----

  /** Encoding and parsing of one owner group. */
  datatype OwnerCodec<!O> = OwnerCodec(bytes: O -> Bytes, wrap: Bytes -> Option<O>)

  /** The owner fields of a mint operation, as stored and read back. */
  datatype MintOwners = MintOwners(count: uint32, blob: Bytes)

  /** Each of these owner groups has a well-formed envelope that parses back. */
  ghost predicate CodecOk<O>(codec: OwnerCodec<O>, owners: seq<O>) {
    forall o :: o in owners ==> WellFormed(codec.bytes(o)) && codec.wrap(codec.bytes(o)) == Some(o)
  }

  function Encoded<O>(codec: OwnerCodec<O>, owners: seq<O>): seq<Bytes> {
    seq(|owners|, k requires 0 <= k < |owners| => codec.bytes(owners[k]))
  }

  /** MintOperation.Bytes: the owner groups' envelopes, concatenated. */
  method PackOwners<O>(codec: OwnerCodec<O>, owners: seq<O>) returns (m: MintOwners)
    ensures m == MintOwners(ToUint32(|owners|), Concat(Encoded(codec, owners)))
  {
    var envs: seq<Bytes> := [];
    var i := 0;
    while i < |owners|
      invariant i <= |owners| && |envs| == i
      invariant forall k :: 0 <= k < i ==> envs[k] == codec.bytes(owners[k])
    {
      envs := envs + [codec.bytes(owners[i])];
      i := i + 1;
    }
    assert envs == Encoded(codec, owners);
    var blob := ConcatAll(envs);
    m := MintOwners(ToUint32(|owners|), blob);
  }

  function WalkOwners<O>(codec: OwnerCodec<O>, blob: Bytes, n: nat): Result<seq<O>, WireError> {
    if n == 0 then Success([])
    else
      var next := NextEnvelope(blob);
      if next.Failure? then Failure(next.error)
      else
        var o := codec.wrap(next.value.0);
        if o.None? then Failure(BadMessage) else Prepend([o.value], WalkOwners(codec, next.value.1, n - 1))
  }

  /** WrapMintOperation's loop over the packed owners. */
  method UnpackOwners<O>(codec: OwnerCodec<O>, m: MintOwners) returns (r: Result<seq<O>, WireError>)
    ensures r == WalkOwners(codec, m.blob, m.count)
  {
    hide NextEnvelope;
    var outputs: seq<O> := [];
    var blob := m.blob;
    var i := 0;
    Prepended(outputs, WalkOwners(codec, blob, m.count));
    while i < m.count
      invariant i <= m.count
      invariant WalkOwners(codec, m.blob, m.count) == Prepend(outputs, WalkOwners(codec, blob, m.count - i))
    {
      var next := NextEnvelope(blob);
      if next.Failure? {
        return Failure(next.error);
      }
      var owner := codec.wrap(next.value.0);
      if owner.None? {
        return Failure(BadMessage);
      }
      PrependedTwice(outputs, owner.value, WalkOwners(codec, next.value.1, m.count - i - 1));
      outputs := outputs + [owner.value];
      blob := next.value.1;
      i := i + 1;
    }
    Prepended(outputs, WalkOwners(codec, blob, 0));
    return Success(outputs);
  }

  lemma {:induction false} WalkConcat<O>(codec: OwnerCodec<O>, owners: seq<O>, n: nat)
    requires CodecOk(codec, owners) && n <= |owners|
    ensures WalkOwners(codec, Concat(Encoded(codec, owners)), n) == Success(owners[..n])
  {
    hide WellFormed, NextEnvelope;
    if n == 0 {
    } else {
      var envs := Encoded(codec, owners);
      assert envs[1..] == Encoded(codec, owners[1..]);
      assert owners[0] in owners && forall o :: o in owners[1..] ==> o in owners;
      NextUndoesConcat(envs[0], Concat(envs[1..]));
      WalkConcat(codec, owners[1..], n - 1);
      TakeCons(owners, n);
    }
  }

  lemma TakeCons<T>(s: seq<T>, n: nat)
    requires 0 < n <= |s|
    ensures s[..n] == [s[0]] + s[1..][..n - 1]
  {
  }

  /** The owner groups of a mint operation come back exactly when they number less than 2^32. */
  lemma MintOwnersRoundTripIff<O>(codec: OwnerCodec<O>, owners: seq<O>)
    requires CodecOk(codec, owners)
    ensures WalkOwners(codec, Concat(Encoded(codec, owners)), ToUint32(|owners|)) == Success(owners)
       <==> |owners| < 0x1_0000_0000
  {
    hide WalkOwners, CodecOk;
    WalkConcat(codec, owners, ToUint32(|owners|));
    assert owners[..|owners|] == owners;
    assert |owners[..ToUint32(|owners|)]| == ToUint32(|owners|);
  }
}
