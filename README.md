# Victory conditions codec

This project models the victory-condition records of a scenario file
(`crates/genie-scx/src/victory.rs`) and proves their properties in Dafny.
These are the records in the file that say how a single-player scenario is
won:

- `LegacyVictoryInfo`: the oldest file generation's record, fifteen 32-bit
  words. The last two are pointer slots.
- `VictoryEntry`: one victory rule, 44 bytes.
- `VictoryPointEntry`: a scored objective. It is 24 bytes, or 32 bytes when
  the version passed in by the enclosing record is at least 2.0.
- `VictoryState`: a one-byte state with codes 0 to 3.
- `VictoryConditions`: the aggregate. It holds an optional version word, a
  count and a state byte, the entries, and from version 1.0 on the total
  points, a count, the starting values (from 2.0 on) and the point entries.
- `VictoryInfo`: six 32-bit words.

The model has three modules:

- `Wire` (`wire.dfy`) is the byte layer under the records:
  - little-endian 8- and 32-bit fields read from the front of a byte
    sequence;
  - a record layout (a sequence of field widths) with a generic
    `Parse`/`Serialize` pair and its round-trip lemmas.
- `Victory` (`victory.dfy`) has the four fixed records and the state byte.
  Each has a decoder and an encoder as functions over byte sequences, with
  lemmas:
  - round trips;
  - exact sizes;
  - what a write after a read changes.
- `Conditions` (`conditions.dfy`) has the aggregate:
  - `DecodeConditions` and `EncodeConditions` are its reference definitions,
    with the round trip proved at every version tier.
  - `ReadVictoryConditions` and `WriteVictoryConditions` are methods with
    the source's loops. Each is proved equal to its reference definition.

Some modelling choices:

- A read past the end of the input fails with `UnexpectedEof`.
- An unknown state byte fails with `InvalidVictoryState(code)`.
- Floats are carried as their 32-bit patterns (`F32`).
- The two version tests `version >= 1.0` and `version >= 2.0` are
  predicates on those patterns, `AtLeast1` and `AtLeast2`. `TierTests`
  proves them equal to an independent model of the IEEE-754 comparison
  (`Ge`, over `IsNaN` and `OrderKey`).
- A run of `n` entries is defined by the offsets of its entries. Every entry
  of a run has the same size, so the `k`-th entry starts at `k` times that
  size. The loops that read one entry at a time are proved to return that
  run. The loops that write one entry at a time are proved to emit the
  concatenation of the entries' encodings.
- A point entry below version 2.0 is 24 bytes: 1+1+4·4+1+1+4
  (`crates/genie-scx/src/victory.rs:170-217`).
- The command byte of a `VictoryEntry` goes through an infallible `.into()`
  (`crates/genie-scx/src/victory.rs:102`), so no command byte is a decoding
  error. The model carries the byte unchanged in `VictoryCommand`.

## Model

| member | source | states |
|---|---|---|
| Wire.WrapI32 | crates/genie-scx/src/victory.rs:324 | `len() as i32` equals the length when it is at most `i32::MAX`, and always differs from it by a multiple of 2^32 |
| Wire.ReadI32Put | crates/genie-scx/src/victory.rs:28-31 | a signed word written little-endian reads back as the same value, and the bytes after it are left alone |
| Wire.LeRoundTrip | crates/genie-scx/src/victory.rs:63 | the four little-endian bytes of a word give back that word |
| Wire.LeCanonical | crates/genie-scx/src/victory.rs:28 | any four bytes are the little-endian bytes of the word they spell |
| Victory.DecodeLegacy | crates/genie-scx/src/victory.rs:27-59 | the read succeeds exactly when at least 60 bytes remain, consumes exactly 60, and otherwise fails with UnexpectedEof |
| Victory.EncodeLegacy | crates/genie-scx/src/victory.rs:62-79 | the writer emits the fifteen words, always 60 bytes; LegacyRoundTrip reads them back |
| Victory.LegacyEncodeLayout | crates/genie-scx/src/victory.rs:62-79 | the writer always emits 60 bytes and the last 8 (the two pointer slots) are zero |
| Victory.LegacyRoundTrip | crates/genie-scx/src/victory.rs:27-79 | writing a record and reading it back gives the same record, the flag included, and leaves the following bytes |
| Victory.LegacyIgnoresPointers | crates/genie-scx/src/victory.rs:43-45 | two inputs that differ only in the two pointer words decode to the same record and the same remaining input |
| Victory.LegacyReencode | crates/genie-scx/src/victory.rs:29 | writing back a decoded record keeps every word except three: the flag word becomes 1 when it was non-zero and 0 otherwise, and the two pointer words become 0 |
| Victory.EncodeEntry | crates/genie-scx/src/victory.rs:135-151 | an entry always encodes to exactly 44 bytes |
| Victory.DecodeEntry | crates/genie-scx/src/victory.rs:101-133 | the read succeeds exactly when 44 bytes remain, fails otherwise with UnexpectedEof, and the entry re-encodes to exactly the bytes consumed |
| Victory.EntryRoundTrip | crates/genie-scx/src/victory.rs:101-151 | reading back a written entry gives the same entry and leaves the following bytes |
| Victory.EncodePointEntry | crates/genie-scx/src/victory.rs:201-217 | a point entry encodes to 32 bytes when the version is at least 2.0 and to 24 bytes otherwise |
| Victory.DecodePointEntry | crates/genie-scx/src/victory.rs:170-199 | the read succeeds exactly when an entry's size remains, and the entry re-encodes to exactly the bytes consumed. Below 2.0 the trailing pair is -1 and 0.0 |
| Victory.PointRoundTrip | crates/genie-scx/src/victory.rs:170-217 | reading back at the same version gives the entry with every field the version makes present. Below 2.0 the trailing pair takes -1 and 0.0 |
| Victory.StateCode | crates/genie-scx/src/victory.rs:221-237 | every state's code is one of 0 to 3 |
| Victory.StateOfCode | crates/genie-scx/src/victory.rs:221-237 | a byte decodes exactly when it is below 4, to the state with that code; any other byte fails with InvalidVictoryState of that byte |
| Victory.StateRoundTrip | crates/genie-scx/src/victory.rs:221-237 | each state's code decodes to that state |
| Victory.DefaultState | crates/genie-scx/src/victory.rs:239-243 | the default state has code 0 (NotAchieved) |
| Victory.TierTests | crates/genie-scx/src/victory.rs:180 | the range tests on the bit pattern (`AtLeast1`, `AtLeast2`) agree with the IEEE-754 comparisons `v >= 1.0` and `v >= 2.0`, which are false for NaNs and order -0.0 with +0.0; these are the tests at lines 180, 211, 291, 295, 331 and 335. A version at least 2.0 is also at least 1.0 |
| Victory.EncodeInfo | crates/genie-scx/src/victory.rs:376-385 | the settings always encode to 24 bytes |
| Victory.DecodeInfo | crates/genie-scx/src/victory.rs:365-374 | the read succeeds exactly when 24 bytes remain, consumes exactly 24, and otherwise fails with UnexpectedEof |
| Victory.InfoRoundTrip | crates/genie-scx/src/victory.rs:364-385 | writing the settings and reading them back gives the same settings and leaves the following bytes |
| Victory.InfoReencode | crates/genie-scx/src/victory.rs:367 | writing back decoded settings keeps every word except the conquest flag, which becomes 1 when it was non-zero and 0 otherwise |
| Conditions.EffectiveVersion | crates/genie-scx/src/victory.rs:322 | without a version the writer uses `f32::MIN`, which is below 1.0 and 2.0 |
| Conditions.Count | crates/genie-scx/src/victory.rs:282 | the number of iterations of `for _ in 0..n` (also line 300) is at most `i32::MAX`, and writing it back as `len() as i32` gives the count word exactly when that word is not negative |
| Conditions.EncodeEntries | crates/genie-scx/src/victory.rs:327-329 | the entries take 44 bytes each |
| Conditions.DecodeEntries | crates/genie-scx/src/victory.rs:281-284 | reading `n` entries succeeds exactly when 44·n bytes remain, yields exactly `n` entries, and consumes exactly those bytes |
| Conditions.EntriesConsumed | crates/genie-scx/src/victory.rs:281-284 | the entries read re-encode, in order, to exactly the bytes they were read from |
| Conditions.EntriesRoundTrip | crates/genie-scx/src/victory.rs:281-284 | a written run of entries reads back as the same entries in the same order |
| Conditions.EncodePointEntries | crates/genie-scx/src/victory.rs:340-342 | the point entries take one entry's size each at the given version |
| Conditions.DecodePointEntries | crates/genie-scx/src/victory.rs:300-302 | reading `n` point entries succeeds exactly when `n` entries' worth of bytes remain, yields exactly `n`, and consumes exactly those bytes |
| Conditions.PointEntriesConsumed | crates/genie-scx/src/victory.rs:300-302 | the point entries read re-encode, in order, to exactly the bytes they were read from |
| Conditions.PointEntriesRoundTrip | crates/genie-scx/src/victory.rs:300-302 | a written run of point entries reads back, in order, as what the version retains of each |
| Conditions.PointTiers | crates/genie-scx/src/victory.rs:211-214 | a point entry's encoding depends only on whether the version is at least 2.0 |
| Conditions.PointEntriesTiers | crates/genie-scx/src/victory.rs:340-342 | the whole run of point entries is encoded the same at any two versions on the same side of 2.0 |
| Conditions.DecodeVersion | crates/genie-scx/src/victory.rs:272-276 | with a version word the first four bytes are read as the version, and the read fails only if they are missing; without one the version is 0.0 and nothing is read |
| Conditions.DecodeHead | crates/genie-scx/src/victory.rs:278-284 | as many entries are read as the count word says, none for a negative count, and in stream order. The state is the one the state byte names, and an unknown state byte aborts the read |
| Conditions.DecodeStarting | crates/genie-scx/src/victory.rs:295-298 | from 2.0 on the starting values are the next two words, the read fails only if they are missing, and they write back to the bytes read; below 2.0 they are 0 and nothing is read |
| Conditions.DecodePointSection | crates/genie-scx/src/victory.rs:291-302 | below 1.0 nothing is read and nothing changes. From 1.0 on the total points are the first word and exactly as many point entries are read as the second word says, none for a negative count. From 2.0 on the starting values are the third and fourth words; below 2.0 they stay 0. The version, state and entries are never changed |
| Conditions.DecodeBody | crates/genie-scx/src/victory.rs:278-303 | the entry count and the state come from the stream. Below 1.0 the total points and point entries are empty and only the entries are consumed. Below 2.0 the starting values are 0. A bad state byte aborts |
| Conditions.BodyReads | crates/genie-scx/src/victory.rs:291-302 | from 1.0 on the total points and the point-entry count are the two words right behind the entries, and from 2.0 on the starting values the two after them |
| Conditions.DecodeConditions | crates/genie-scx/src/victory.rs:271-276 | the version is the first word when the stream has one, and 0.0 otherwise |
| Conditions.ConditionsReads | crates/genie-scx/src/victory.rs:271-314 | every field `read_from` fills comes from the stream: the state byte and the entry count behind the optional version word, and from 1.0 on the total points, the point-entry count and from 2.0 on the starting values right behind the entries |
| Conditions.HeadReencode | crates/genie-scx/src/victory.rs:278-284 | the count, state and entries read, written back as at lines 324-329, give exactly the bytes read when the count word is not negative |
| Conditions.SectionReencode | crates/genie-scx/src/victory.rs:291-302 | the version-gated section read, written back as at lines 331-343, gives exactly the bytes read when the point-entry count word is not negative |
| Conditions.BodyReencode | crates/genie-scx/src/victory.rs:278-302 | everything after the version word, read and written back at the same version, gives exactly the bytes read when neither count word is negative |
| Conditions.ConditionsReencode | crates/genie-scx/src/victory.rs:271-346 | `read_from` followed by `write_to` with the version read (or none when the stream had none) gives back exactly the bytes read, when neither count word is negative |
| Conditions.StartingRoundTrip | crates/genie-scx/src/victory.rs:295-298 | the starting values read back when the version is at least 2.0 and are 0 otherwise |
| Conditions.EncodeHead | crates/genie-scx/src/victory.rs:324-329 | the count word, the state byte and the entries take 5 bytes plus 44 per entry; HeadRoundTrip reads them back |
| Conditions.EncodeStarting | crates/genie-scx/src/victory.rs:335-338 | the starting values take 8 bytes from 2.0 on and none below; StartingRoundTrip reads them back |
| Conditions.EncodePointSection | crates/genie-scx/src/victory.rs:331-343 | the version-gated section takes nothing below 1.0, 8 bytes plus 24 per point entry below 2.0, and 16 plus 32 per point entry from 2.0 on; PointSectionRoundTrip reads it back |
| Conditions.EncodeBody | crates/genie-scx/src/victory.rs:324-343 | everything after the version word takes 5 bytes plus 44 per entry, plus the version-gated section's size at that tier; BodyRoundTrip reads it back |
| Conditions.HeadRoundTrip | crates/genie-scx/src/victory.rs:324-329 | the count, state and entries written by the writer read back as the same state and entries |
| Conditions.PointSectionRoundTrip | crates/genie-scx/src/victory.rs:331-343 | the version-gated section read back at a version on the same side of 1.0 and 2.0 gives the fields that version retains |
| Conditions.BodyRoundTrip | crates/genie-scx/src/victory.rs:324-343 | everything after the version word reads back as what the version retains |
| Conditions.RoundTrip | crates/genie-scx/src/victory.rs:271-346 | written with `Some(v)` and read with a version word, the record comes back with version `v` and the same state and entries. Total points and point entries survive from 1.0 on, and the starting values from 2.0 on |
| Conditions.RoundTripUnversioned | crates/genie-scx/src/victory.rs:271-346 | written with `None` and read without a version word, the record comes back at version 0.0 with the same state and entries, and every version-gated field at its default |
| Conditions.EncodeConditions | crates/genie-scx/src/victory.rs:317-346 | the output length at each tier: 4 bytes for a version word, 5 plus 44 per entry, then nothing below 1.0 (and so nothing without a version), 8 plus 24 per point entry below 2.0, and 16 plus 32 per point entry from 2.0 on |
| Conditions.HeadPrefix | crates/genie-scx/src/victory.rs:318-325 | the output starts with the version word only when one is given, then the entry count as `len() as i32` and the state code |
| Conditions.PointPrefix | crates/genie-scx/src/victory.rs:331-333 | from version 1.0 on, the entries are followed by the total points and the point-entry count as `len() as i32` |
| Conditions.BadStateAborts | crates/genie-scx/src/victory.rs:279 | a state byte above 3 aborts the whole read with InvalidVictoryState, whatever follows it, with or without a version word |
| Conditions.ReadEntries | crates/genie-scx/src/victory.rs:281-284 | the loop that reads one entry per iteration returns exactly the run DecodeEntries defines, or its short-read failure |
| Conditions.ReadPointEntries | crates/genie-scx/src/victory.rs:300-302 | the loop that reads one point entry per iteration returns exactly the run DecodePointEntries defines |
| Conditions.ReadVictoryConditions | crates/genie-scx/src/victory.rs:271-314 | the field-by-field reader with its mutable variables and loops returns exactly DecodeConditions |
| Conditions.WriteEntries | crates/genie-scx/src/victory.rs:327-329 | the loop that writes one entry per iteration emits EncodeEntries |
| Conditions.WritePointEntries | crates/genie-scx/src/victory.rs:340-342 | the loop that writes one point entry per iteration emits EncodePointEntries at the effective version |
| Conditions.WriteVictoryConditions | crates/genie-scx/src/victory.rs:317-346 | the field-by-field writer emits exactly EncodeConditions |

## Left out

- IEEE-754 arithmetic: floats are copied as bit patterns and never computed
  on. The two version tests are modelled on the patterns.
- The named variants of `VictoryCondition` and its conversion to and from a
  byte: `crate::types` is not part of this model. The conversion is taken
  to be the lossless byte wrapper `VictoryCommand`.
- Failures of the output stream, and input errors other than a short read
  or an unknown state byte. The writer is a total function.
- `Vec::with_capacity(num_conditions as usize)`
  (`crates/genie-scx/src/victory.rs:281`): allocation is not modelled. For a
  negative count the cast gives a huge capacity and the source panics
  ("capacity overflow") before its loop runs. The model instead reads no
  entries, as the loop alone would. A negative point-entry count
  (line 300) does read no point entries in the source too.
- Conditions.ConditionsReencode, Conditions.BodyReencode,
  Conditions.HeadReencode and Conditions.SectionReencode: require the count
  words to be non-negative. A negative count reads no entries and is
  written back as 0, so those bytes differ.
- The deprecated `VictoryConditions::from`
  (`crates/genie-scx/src/victory.rs:263-268`): it only forwards to
  `read_from`.
- The derived `Default`, `Clone` and `Debug` implementations of the
  records, except the state's default.
- Conditions.RoundTrip: requires at most `i32::MAX` entries and, from 1.0
  on, at most `i32::MAX` point entries. Longer sequences wrap in
  `len() as i32` (modelled by `WrapI32`) and would not read back.
- Conditions.RoundTripUnversioned: requires at most `i32::MAX` entries, for
  the same reason.
- Conditions.BodyRoundTrip, Conditions.HeadRoundTrip and
  Conditions.PointSectionRoundTrip: the same length bounds.
- Conditions.ReadVictoryConditions, Conditions.ReadEntries and
  Conditions.ReadPointEntries: the input is the whole remaining stream as a
  byte sequence, so partial reads of a stream that is still filling are
  not modelled.
