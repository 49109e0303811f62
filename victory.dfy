/** The fixed-layout victory records of a scenario file and the one-byte
    victory state, each with its decoder and encoder. All multi-byte values
    are little-endian; floats are carried as their 32-bit patterns. */
module Victory {
  import opened Wire

  // ---------------------------------------------------------------------
  // Version tiers

  /** An IEEE-754 single-precision NaN: every exponent bit set and a
      non-zero fraction, with either sign. */
  predicate IsNaN(v: F32) { v.bits % 0x8000_0000 > 0x7F80_0000 }

  /** Where a non-NaN value lies on the extended real line, as an integer
      that orders values as IEEE-754 does: the magnitude bits, negated when
      the sign bit is set, so that -0.0 and +0.0 coincide. */
  function OrderKey(v: F32): int
  {
    if v.bits < 0x8000_0000 then v.bits else -(v.bits - 0x8000_0000)
  }

  /** The IEEE-754 comparison `a >= b`, false whenever either side is a NaN. */
  predicate Ge(a: F32, b: F32)
  {
    !IsNaN(a) && !IsNaN(b) && OrderKey(a) >= OrderKey(b)
  }

  const One: F32 := F32(0x3F80_0000)
  const Two: F32 := F32(0x4000_0000)

  /** `v >= 1.0`, decided by one range test on the bit pattern: 1.0 is
      0x3F80_0000 and +infinity 0x7F80_0000, every pattern above that with
      the sign clear is a NaN, and every pattern with the sign set is
      negative, -0.0 or a NaN. */
  predicate AtLeast1(v: F32)
  {
    0x3F80_0000 <= v.bits <= 0x7F80_0000
  }

  /** `v >= 2.0`; 2.0 is 0x4000_0000. */
  predicate AtLeast2(v: F32)
  {
    0x4000_0000 <= v.bits <= 0x7F80_0000
  }

  /** The two range tests are the IEEE-754 comparisons with 1.0 and 2.0, and
      every version at least 2.0 is also at least 1.0. */
  lemma TierTests(v: F32)
    ensures AtLeast1(v) <==> Ge(v, One)
    ensures AtLeast2(v) <==> Ge(v, Two)
    ensures AtLeast2(v) ==> AtLeast1(v)
  {
  }

  // ---------------------------------------------------------------------
  // LegacyVictoryInfo: the victory settings of the oldest file generation.

  datatype LegacyVictoryInfo = LegacyVictoryInfo(
    objectType: i32,
    allFlag: bool,
    playerId: i32,
    destObjectId: i32,
    area: (F32, F32, F32, F32),
    victoryType: i32,
    amount: i32,
    attribute: i32,
    objectId: i32,
    destObjectId2: i32)

  /** Thirteen words of data, then two pointer words. */
  const LegacyLayout: seq<Width> := Repeat(W32, 15)

  lemma LegacyLayoutSize()
    ensures AllWords(LegacyLayout) && Size(LegacyLayout) == 60
  {
    WordsSize(LegacyLayout);
  }

  function LegacyFields(x: LegacyVictoryInfo): (fs: seq<Field>)
    ensures Fits(fs, LegacyLayout)
  {
    [ Word(I32Bits(x.objectType)),
      Word(if x.allFlag then 1 else 0),
      Word(I32Bits(x.playerId)),
      Word(I32Bits(x.destObjectId)),
      Word(x.area.0.bits), Word(x.area.1.bits), Word(x.area.2.bits), Word(x.area.3.bits),
      Word(I32Bits(x.victoryType)),
      Word(I32Bits(x.amount)),
      Word(I32Bits(x.attribute)),
      Word(I32Bits(x.objectId)),
      Word(I32Bits(x.destObjectId2)),
      Word(0),   // the object pointer slot, always written as 0
      Word(0) ]  // the destination-object pointer slot, always written as 0
  }

  /** The record carried by the fields; the two pointer words are dropped. */
  function LegacyOfFields(fs: seq<Field>): LegacyVictoryInfo
    requires Fits(fs, LegacyLayout)
  {
    LegacyVictoryInfo(
      I32OfBits(fs[0].w),
      fs[1].w != 0,
      I32OfBits(fs[2].w),
      I32OfBits(fs[3].w),
      (F32(fs[4].w), F32(fs[5].w), F32(fs[6].w), F32(fs[7].w)),
      I32OfBits(fs[8].w),
      I32OfBits(fs[9].w),
      I32OfBits(fs[10].w),
      I32OfBits(fs[11].w),
      I32OfBits(fs[12].w))
  }

  /** `LegacyVictoryInfo::write_to`: fifteen words, always 60 bytes. */
  function EncodeLegacy(x: LegacyVictoryInfo): (b: seq<u8>)
    ensures |b| == 60
  {
    LegacyLayoutSize();
    SerializeSize(LegacyFields(x), LegacyLayout);
    Serialize(LegacyFields(x))
  }

  function DecodeLegacy(s: seq<u8>): (r: Result<(LegacyVictoryInfo, seq<u8>)>)
    ensures r.Ok? <==> |s| >= 60
    ensures r.Ok? ==> r.value.1 == s[60..]
    ensures r.Err? ==> r.error == UnexpectedEof
  {
    LegacyLayoutSize();
    var p :- Parse(LegacyLayout, s);
    Ok((LegacyOfFields(p.0), p.1))
  }

  lemma LegacyFieldsInverse(x: LegacyVictoryInfo)
    ensures LegacyOfFields(LegacyFields(x)) == x
  {
  }

  /** Re-deriving the fields of decoded fields keeps every word except the
      flag word, which becomes 0 or 1, and the pointer words, which become 0. */
  lemma LegacyFieldsCanonical(fs: seq<Field>)
    requires Fits(fs, LegacyLayout)
    ensures forall k :: 0 <= k < 15 ==>
      LegacyFields(LegacyOfFields(fs))[k] ==
        if k == 1 then Word(if fs[1].w != 0 then 1 else 0)
        else if k >= 13 then Word(0)
        else fs[k]
  {
  }

  /** The bytes of the fields, read back as words. */
  lemma LegacyWordsOfBytes(x: LegacyVictoryInfo)
    ensures |EncodeLegacy(x)| == 60
    ensures LegacyFields(x) == Words(EncodeLegacy(x), 15)
  {
    LegacyLayoutSize();
    SerializeSize(LegacyFields(x), LegacyLayout);
    FieldsOfBytes(LegacyLayout, LegacyFields(x));
    ParseWords(LegacyLayout, EncodeLegacy(x));
  }

  /** The encoder always emits 60 bytes, and the two pointer words are zero. */
  lemma {:induction false} LegacyEncodeLayout(x: LegacyVictoryInfo)
    ensures |EncodeLegacy(x)| == 60
    ensures EncodeLegacy(x)[52..] == [0, 0, 0, 0, 0, 0, 0, 0]
  {
    var out := EncodeLegacy(x);
    LegacyWordsOfBytes(x);
    assert WordAt(out, 13) == 0 && WordAt(out, 14) == 0 by {
      assert Words(out, 15)[13] == Word(0) && Words(out, 15)[14] == Word(0);
    }
    LeCanonical(out[52..56]);
    LeCanonical(out[56..60]);
    assert out[52..] == out[52..56] + out[56..60];
  }

  lemma {:induction false} LegacyRoundTrip(x: LegacyVictoryInfo, rest: seq<u8>)
    ensures DecodeLegacy(EncodeLegacy(x) + rest) == Ok((x, rest))
  {
    LegacyLayoutSize();
    ParseSerialize(LegacyLayout, LegacyFields(x), rest);
    LegacyFieldsInverse(x);
  }

  /** Decoding does not look at the two pointer words: inputs that differ
      only there decode to the same record and the same remaining input. */
  lemma {:induction false} LegacyIgnoresPointers(s: seq<u8>, t: seq<u8>)
    requires |s| >= 60 && |t| >= 60
    requires s[..52] == t[..52] && s[60..] == t[60..]
    ensures DecodeLegacy(s) == DecodeLegacy(t)
  {
    LegacyLayoutSize();
    ParseWords(LegacyLayout, s);
    ParseWords(LegacyLayout, t);
    var fs := Words(s, 15);
    var gs := Words(t, 15);
    forall k | 0 <= k < 13
      ensures fs[k] == gs[k]
    {
      WordAtPrefix(s, t, 52, k);
    }
    LegacyIgnoresLastFields(fs, gs);
  }

  lemma LegacyIgnoresLastFields(fs: seq<Field>, gs: seq<Field>)
    requires Fits(fs, LegacyLayout) && Fits(gs, LegacyLayout)
    requires forall k :: 0 <= k < 13 ==> fs[k] == gs[k]
    ensures LegacyOfFields(fs) == LegacyOfFields(gs)
  {
  }

  /** Writing back a decoded record reproduces every word except the flag
      word, which becomes 0 or 1, and the pointer words, which become 0. */
  lemma {:induction false} LegacyReencode(s: seq<u8>)
    requires |s| >= 60
    ensures |EncodeLegacy(DecodeLegacy(s).value.0)| == 60
    ensures forall k :: 0 <= k < 15 ==>
      WordAt(EncodeLegacy(DecodeLegacy(s).value.0), k) ==
        if k == 1 then (if WordAt(s, 1) != 0 then 1 else 0)
        else if k >= 13 then 0
        else WordAt(s, k)
  {
    var fs := Words(s, 15);
    var x := LegacyOfFields(fs);
    assert DecodeLegacy(s).value.0 == x by {
      LegacyLayoutSize();
      ParseWords(LegacyLayout, s);
    }
    var out := EncodeLegacy(x);
    assert |out| == 60 && LegacyFields(x) == Words(out, 15) by {
      LegacyWordsOfBytes(x);
    }
    LegacyFieldsCanonical(fs);
    forall k | 0 <= k < 15
      ensures WordAt(out, k) ==
        if k == 1 then (if WordAt(s, 1) != 0 then 1 else 0)
        else if k >= 13 then 0
        else WordAt(s, k)
    {
      assert Words(out, 15)[k] == LegacyFields(x)[k];
    }
  }

  // ---------------------------------------------------------------------
  // VictoryEntry: one victory rule.

  /** The victory command byte. Its conversion to and from a byte is
      total and lossless; the command's named variants are not part of
      this model. */
  datatype VictoryCommand = VictoryCommand(code: u8)

  function CommandOfByte(b: u8): VictoryCommand { VictoryCommand(b) }
  function ByteOfCommand(c: VictoryCommand): u8 { c.code }

  datatype VictoryEntry = VictoryEntry(
    command: VictoryCommand,
    objectType: i32,
    playerId: i32,
    x0: F32,
    y0: F32,
    x1: F32,
    y1: F32,
    number: i32,
    count: i32,
    sourceObject: i32,
    targetObject: i32,
    victoryGroup: i8,
    allyFlag: i8,
    state: i8)

  /** A command byte, ten words, three signed bytes. */
  const EntryLayout: seq<Width> :=
    [W8] + Repeat(W32, 10) + Repeat(W8, 3)

  const EntrySize: nat := 44

  lemma EntryLayoutSize()
    ensures Size(EntryLayout) == EntrySize
  {
    SizeAppend([W8], Repeat(W32, 10));
    SizeAppend([W8] + Repeat(W32, 10), Repeat(W8, 3));
    RepeatSize(W32, 10);
    RepeatSize(W8, 3);
  }

  function EntryFields(e: VictoryEntry): (fs: seq<Field>)
    ensures Fits(fs, EntryLayout)
  {
    [ Byte(ByteOfCommand(e.command)),
      Word(I32Bits(e.objectType)),
      Word(I32Bits(e.playerId)),
      Word(e.x0.bits), Word(e.y0.bits), Word(e.x1.bits), Word(e.y1.bits),
      Word(I32Bits(e.number)),
      Word(I32Bits(e.count)),
      Word(I32Bits(e.sourceObject)),
      Word(I32Bits(e.targetObject)),
      Byte(I8Bits(e.victoryGroup)),
      Byte(I8Bits(e.allyFlag)),
      Byte(I8Bits(e.state)) ]
  }

  function EntryOfFields(fs: seq<Field>): VictoryEntry
    requires Fits(fs, EntryLayout)
  {
    VictoryEntry(
      CommandOfByte(fs[0].b),
      I32OfBits(fs[1].w),
      I32OfBits(fs[2].w),
      F32(fs[3].w), F32(fs[4].w), F32(fs[5].w), F32(fs[6].w),
      I32OfBits(fs[7].w),
      I32OfBits(fs[8].w),
      I32OfBits(fs[9].w),
      I32OfBits(fs[10].w),
      I8OfBits(fs[11].b),
      I8OfBits(fs[12].b),
      I8OfBits(fs[13].b))
  }

  lemma EntryFieldsInverse(e: VictoryEntry)
    ensures EntryOfFields(EntryFields(e)) == e
  {
  }

  lemma EntryOfFieldsInverse(fs: seq<Field>)
    requires Fits(fs, EntryLayout)
    ensures EntryFields(EntryOfFields(fs)) == fs
  {
  }

  function EncodeEntry(e: VictoryEntry): (r: seq<u8>)
    ensures |r| == EntrySize
  {
    EntryLayoutSize();
    SerializeSize(EntryFields(e), EntryLayout);
    Serialize(EntryFields(e))
  }

  /** Reads one entry. It fails only when fewer than 44 bytes remain, and
      writing the entry back gives exactly the bytes it consumed. */
  function DecodeEntry(s: seq<u8>): (r: Result<(VictoryEntry, seq<u8>)>)
    ensures r.Ok? <==> |s| >= EntrySize
    ensures r.Ok? ==> EncodeEntry(r.value.0) + r.value.1 == s
    ensures r.Err? ==> r.error == UnexpectedEof
  {
    EntryLayoutSize();
    var p :- Parse(EntryLayout, s);
    ParseConsumed(EntryLayout, s);
    EntryOfFieldsInverse(p.0);
    Ok((EntryOfFields(p.0), p.1))
  }

  lemma {:induction false} EntryRoundTrip(e: VictoryEntry, rest: seq<u8>)
    ensures DecodeEntry(EncodeEntry(e) + rest) == Ok((e, rest))
  {
    EntryLayoutSize();
    ParseSerialize(EntryLayout, EntryFields(e), rest);
    EntryFieldsInverse(e);
  }

  // ---------------------------------------------------------------------
  // VictoryPointEntry: a scored objective, with two trailing fields that
  // exist only from version 2.0 on.

  datatype VictoryPointEntry = VictoryPointEntry(
    command: i8,
    state: i8,
    attribute: i32,
    amount: i32,
    points: i32,
    currentPoints: i32,
    id: i8,
    group: i8,
    currentAttributeAmount: F32,
    attribute1: i32,
    currentAttributeAmount1: F32)

  /** Two signed bytes, four words, two signed bytes, a float; from
      version 2.0 on also a word and a float. */
  function PointLayout(version: F32): seq<Width>
  {
    Repeat(W8, 2) + Repeat(W32, 4) + Repeat(W8, 2) + Repeat(W32, 1)
    + Repeat(W32, if AtLeast2(version) then 2 else 0)
  }

  function PointEntrySize(version: F32): nat
  {
    if AtLeast2(version) then 32 else 24
  }

  lemma PointLayoutSize(version: F32)
    ensures Size(PointLayout(version)) == PointEntrySize(version)
  {
    var a := Repeat(W8, 2) + Repeat(W32, 4);
    var b := a + Repeat(W8, 2);
    var c := b + Repeat(W32, 1);
    var n := if AtLeast2(version) then 2 else 0;
    SizeAppend(Repeat(W8, 2), Repeat(W32, 4));
    SizeAppend(a, Repeat(W8, 2));
    SizeAppend(b, Repeat(W32, 1));
    SizeAppend(c, Repeat(W32, n));
    RepeatSize(W8, 2);
    RepeatSize(W32, 4);
    RepeatSize(W32, 1);
    RepeatSize(W32, n);
  }

  function PointFields(p: VictoryPointEntry, version: F32): (fs: seq<Field>)
    ensures Fits(fs, PointLayout(version))
  {
    [ Byte(I8Bits(p.command)),
      Byte(I8Bits(p.state)),
      Word(I32Bits(p.attribute)),
      Word(I32Bits(p.amount)),
      Word(I32Bits(p.points)),
      Word(I32Bits(p.currentPoints)),
      Byte(I8Bits(p.id)),
      Byte(I8Bits(p.group)),
      Word(p.currentAttributeAmount.bits) ]
    + (if AtLeast2(version)
       then [Word(I32Bits(p.attribute1)), Word(p.currentAttributeAmount1.bits)]
       else [])
  }

  /** The entry carried by the fields; below version 2.0 the two trailing
      fields take -1 and 0.0 without touching the stream. */
  function PointOfFields(fs: seq<Field>, version: F32): VictoryPointEntry
    requires Fits(fs, PointLayout(version))
  {
    VictoryPointEntry(
      I8OfBits(fs[0].b),
      I8OfBits(fs[1].b),
      I32OfBits(fs[2].w),
      I32OfBits(fs[3].w),
      I32OfBits(fs[4].w),
      I32OfBits(fs[5].w),
      I8OfBits(fs[6].b),
      I8OfBits(fs[7].b),
      F32(fs[8].w),
      if AtLeast2(version) then I32OfBits(fs[9].w) else -1,
      if AtLeast2(version) then F32(fs[10].w) else Zero)
  }

  /** What of a point entry survives a round trip at `version`: everything
      from 2.0 on, otherwise the trailing pair is replaced by its defaults. */
  function RetainedPoint(p: VictoryPointEntry, version: F32): VictoryPointEntry
  {
    if AtLeast2(version) then p else p.(attribute1 := -1, currentAttributeAmount1 := Zero)
  }

  lemma PointFieldsInverse(p: VictoryPointEntry, version: F32)
    ensures PointOfFields(PointFields(p, version), version) == RetainedPoint(p, version)
  {
  }

  lemma PointOfFieldsInverse(fs: seq<Field>, version: F32)
    requires Fits(fs, PointLayout(version))
    ensures PointFields(PointOfFields(fs, version), version) == fs
  {
  }

  function EncodePointEntry(p: VictoryPointEntry, version: F32): (r: seq<u8>)
    ensures |r| == PointEntrySize(version)
  {
    SerializeSize(PointFields(p, version), PointLayout(version));
    PointLayoutSize(version);
    Serialize(PointFields(p, version))
  }

  /** Reads one point entry at `version`. It fails only on a short read,
      consumes 24 bytes below 2.0 and 32 from 2.0 on, and writing the entry
      back at the same version gives exactly the bytes it consumed. */
  function DecodePointEntry(s: seq<u8>, version: F32): (r: Result<(VictoryPointEntry, seq<u8>)>)
    ensures r.Ok? <==> |s| >= PointEntrySize(version)
    ensures r.Ok? ==> EncodePointEntry(r.value.0, version) + r.value.1 == s
    ensures r.Ok? && !AtLeast2(version) ==>
      r.value.0.attribute1 == -1 && r.value.0.currentAttributeAmount1 == Zero
    ensures r.Err? ==> r.error == UnexpectedEof
  {
    PointLayoutSize(version);
    var p :- Parse(PointLayout(version), s);
    ParseConsumed(PointLayout(version), s);
    PointOfFieldsInverse(p.0, version);
    Ok((PointOfFields(p.0, version), p.1))
  }

  lemma {:induction false} PointRoundTrip(p: VictoryPointEntry, version: F32, rest: seq<u8>)
    ensures DecodePointEntry(EncodePointEntry(p, version) + rest, version) == Ok((RetainedPoint(p, version), rest))
  {
    PointLayoutSize(version);
    ParseSerialize(PointLayout(version), PointFields(p, version), rest);
    PointFieldsInverse(p, version);
  }

  // ---------------------------------------------------------------------
  // VictoryState

  datatype VictoryState = NotAchieved | Failed | Achieved | Disabled

  function StateCode(st: VictoryState): (b: u8)
    ensures b < 4
  {
    match st
    case NotAchieved => 0
    case Failed => 1
    case Achieved => 2
    case Disabled => 3
  }

  /** The state a byte names; any byte above 3 is an error. */
  function StateOfCode(b: u8): (r: Result<VictoryState>)
    ensures r.Ok? <==> b < 4
    ensures r.Ok? ==> StateCode(r.value) == b
    ensures r.Err? ==> r.error == InvalidVictoryState(b)
  {
    if b == 0 then Ok(NotAchieved)
    else if b == 1 then Ok(Failed)
    else if b == 2 then Ok(Achieved)
    else if b == 3 then Ok(Disabled)
    else Err(InvalidVictoryState(b))
  }

  lemma StateRoundTrip(st: VictoryState)
    ensures StateOfCode(StateCode(st)) == Ok(st)
  {
  }

  /** A state that has no data yet is not achieved. */
  function DefaultState(): (st: VictoryState)
    ensures StateCode(st) == 0
  {
    NotAchieved
  }

  // ---------------------------------------------------------------------
  // VictoryInfo: the global victory settings, six words.

  datatype VictoryInfo = VictoryInfo(
    conquest: bool,
    ruins: i32,
    relics: i32,
    discoveries: i32,
    exploration: i32,
    gold: i32)

  const InfoLayout: seq<Width> := Repeat(W32, 6)

  lemma InfoLayoutSize()
    ensures AllWords(InfoLayout) && Size(InfoLayout) == 24
  {
    WordsSize(InfoLayout);
  }

  function InfoFields(x: VictoryInfo): (fs: seq<Field>)
    ensures Fits(fs, InfoLayout)
  {
    [ Word(if x.conquest then 1 else 0),
      Word(I32Bits(x.ruins)),
      Word(I32Bits(x.relics)),
      Word(I32Bits(x.discoveries)),
      Word(I32Bits(x.exploration)),
      Word(I32Bits(x.gold)) ]
  }

  function InfoOfFields(fs: seq<Field>): VictoryInfo
    requires Fits(fs, InfoLayout)
  {
    VictoryInfo(
      fs[0].w != 0,
      I32OfBits(fs[1].w),
      I32OfBits(fs[2].w),
      I32OfBits(fs[3].w),
      I32OfBits(fs[4].w),
      I32OfBits(fs[5].w))
  }

  function EncodeInfo(x: VictoryInfo): (r: seq<u8>)
    ensures |r| == 24
  {
    InfoLayoutSize();
    SerializeSize(InfoFields(x), InfoLayout);
    Serialize(InfoFields(x))
  }

  function DecodeInfo(s: seq<u8>): (r: Result<(VictoryInfo, seq<u8>)>)
    ensures r.Ok? <==> |s| >= 24
    ensures r.Ok? ==> r.value.1 == s[24..]
    ensures r.Err? ==> r.error == UnexpectedEof
  {
    InfoLayoutSize();
    var p :- Parse(InfoLayout, s);
    Ok((InfoOfFields(p.0), p.1))
  }

  lemma InfoFieldsInverse(x: VictoryInfo)
    ensures InfoOfFields(InfoFields(x)) == x
  {
  }

  lemma InfoFieldsCanonical(fs: seq<Field>)
    requires Fits(fs, InfoLayout)
    ensures InfoFields(InfoOfFields(fs)) == fs[0 := Word(if fs[0].w != 0 then 1 else 0)]
  {
  }

  /** The bytes of the fields, read back as words. */
  lemma InfoWordsOfBytes(x: VictoryInfo)
    ensures InfoFields(x) == Words(EncodeInfo(x), 6)
  {
    InfoLayoutSize();
    FieldsOfBytes(InfoLayout, InfoFields(x));
    ParseWords(InfoLayout, EncodeInfo(x));
  }

  lemma {:induction false} InfoRoundTrip(x: VictoryInfo, rest: seq<u8>)
    ensures DecodeInfo(EncodeInfo(x) + rest) == Ok((x, rest))
  {
    InfoLayoutSize();
    ParseSerialize(InfoLayout, InfoFields(x), rest);
    InfoFieldsInverse(x);
  }

  /** Writing back decoded settings reproduces every word except the
      conquest flag, which becomes 0 or 1. */
  lemma {:induction false} InfoReencode(s: seq<u8>)
    requires |s| >= 24
    ensures forall k :: 0 <= k < 6 ==>
      WordAt(EncodeInfo(DecodeInfo(s).value.0), k) ==
        if k == 0 then (if WordAt(s, 0) != 0 then 1 else 0) else WordAt(s, k)
  {
    InfoLayoutSize();
    ParseWords(InfoLayout, s);
    var fs := Words(s, 6);
    var x := InfoOfFields(fs);
    var out := EncodeInfo(x);
    InfoWordsOfBytes(x);
    InfoFieldsCanonical(fs);
    forall k | 0 <= k < 6
      ensures WordAt(out, k) ==
        if k == 0 then (if WordAt(s, 0) != 0 then 1 else 0) else WordAt(s, k)
    {
      assert Words(out, 6)[k] == InfoFields(x)[k];
    }
  }
}
