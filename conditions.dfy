/** The victory conditions of a scenario: an optional version word, the
    rule entries, and, from version 1.0 on, the scored objectives. The
    version read first decides which later fields exist, so the reader and
    the writer must take the same version-gated branches. */
module Conditions {
  import opened Wire
  import opened Victory

  datatype VictoryConditions = VictoryConditions(
    version: F32,
    victory: VictoryState,
    totalPoints: i32,
    startingPoints: i32,
    startingGroup: i32,
    entries: seq<VictoryEntry>,
    pointEntries: seq<VictoryPointEntry>)

  /** The number of iterations of `for _ in 0..n`: none for a negative
      count. Written back as `len() as i32`, a count reproduces the word it
      came from exactly when that word is not negative. */
  function Count(n: i32): (r: nat)
    ensures r <= MaxI32
    ensures WrapI32(r) == n <==> n >= 0
  {
    if n < 0 then 0 else n
  }

  /** Two versions that take the same branches in the codec. */
  predicate SameTiers(a: F32, b: F32)
  {
    AtLeast1(a) == AtLeast1(b) && AtLeast2(a) == AtLeast2(b)
  }

  /** The version the writer branches on: the one it is given, or f32::MIN. */
  function EffectiveVersion(version: Option<F32>): (v: F32)
    ensures version.None? ==> !AtLeast1(v) && !AtLeast2(v)
  {
    if version.Some? then version.value else MinF32
  }

  // ---------------------------------------------------------------------
  // Runs of entries. Every entry of a run has the same size, so reading `n`
  // of them one after another takes the entry at each multiple of that size
  // and fails exactly when the input is shorter than `n` entries; the loops
  // further down are proved to agree with these definitions.

  /** Bounds on the offset of the `k`-th of `n` records of `size` bytes. */
  lemma Stride(size: nat, k: nat, n: nat)
    requires k < n
    ensures size * k + size == size * (k + 1) <= size * n
  {
  }

  lemma DropAppend(a: seq<u8>, b: seq<u8>, m: nat)
    requires m <= |a|
    ensures (a + b)[m..] == a[m..] + b
  {
  }

  lemma DropPast(a: seq<u8>, b: seq<u8>, m: nat)
    requires m <= |b|
    ensures (a + b)[|a| + m..] == b[m..]
  {
  }

  lemma Assoc(a: seq<u8>, b: seq<u8>, c: seq<u8>)
    ensures a + b + c == a + (b + c)
  {
  }

  lemma Middle(a: seq<u8>, b: seq<u8>, c: seq<u8>)
    ensures (a + b + c)[|a|..|a| + |b|] == b
  {
  }

  function EncodeEntries(es: seq<VictoryEntry>): (r: seq<u8>)
    ensures |r| == EntrySize * |es|
  {
    if es == [] then [] else EncodeEntry(es[0]) + EncodeEntries(es[1..])
  }

  lemma {:induction false} EncodeEntriesAppend(es: seq<VictoryEntry>, e: VictoryEntry)
    ensures EncodeEntries(es + [e]) == EncodeEntries(es) + EncodeEntry(e)
  {
    if es == [] {
      assert es + [e] == [e];
      assert EncodeEntries([e]) == EncodeEntry(e) + EncodeEntries([]);
    } else {
      assert (es + [e])[1..] == es[1..] + [e];
      EncodeEntriesAppend(es[1..], e);
    }
  }

  /** The `k`-th entry of a run that starts at the beginning of `s`. */
  function EntryAt(s: seq<u8>, k: nat): VictoryEntry
    requires EntrySize * (k + 1) <= |s|
  {
    DecodeEntry(s[EntrySize * k..]).value.0
  }

  /** Reads `n` entries in stream order. */
  function DecodeEntries(n: nat, s: seq<u8>): (r: Result<(seq<VictoryEntry>, seq<u8>)>)
    ensures r.Ok? <==> |s| >= EntrySize * n
    ensures r.Ok? ==> |r.value.0| == n && r.value.1 == s[EntrySize * n..]
    ensures r.Err? ==> r.error == UnexpectedEof
  {
    if |s| < EntrySize * n then Err(UnexpectedEof)
    else Ok((seq(n, k requires 0 <= k < n => EntryAt(s, k)), s[EntrySize * n..]))
  }

  lemma {:induction false} EncodeEntriesDrop(es: seq<VictoryEntry>, k: nat)
    requires k <= |es|
    ensures EncodeEntries(es)[EntrySize * k..] == EncodeEntries(es[k..])
  {
    if k > 0 {
      var head := EncodeEntry(es[0]);
      var tail := EncodeEntries(es[1..]);
      assert EncodeEntries(es) == head + tail;
      Stride(EntrySize, k - 1, k);
      assert (head + tail)[EntrySize * k..] == tail[EntrySize * (k - 1)..] by {
        DropPast(head, tail, EntrySize * (k - 1));
      }
      EncodeEntriesDrop(es[1..], k - 1);
      assert es[1..][k - 1..] == es[k..];
    }
  }

  /** The `k`-th entry of an encoded run is the `k`-th entry written. */
  lemma EncodedEntryAt(es: seq<VictoryEntry>, rest: seq<u8>, k: nat)
    requires k < |es|
    ensures EntrySize * (k + 1) <= |EncodeEntries(es) + rest|
    ensures EntryAt(EncodeEntries(es) + rest, k) == es[k]
  {
    var a := EncodeEntries(es);
    var tail := EncodeEntries(es[k + 1..]) + rest;
    Stride(EntrySize, k, |es|);
    assert (a + rest)[EntrySize * k..] == EncodeEntry(es[k]) + tail by {
      DropAppend(a, rest, EntrySize * k);
      EncodeEntriesDrop(es, k);
      assert es[k..][1..] == es[k + 1..];
      Assoc(EncodeEntry(es[k]), EncodeEntries(es[k + 1..]), rest);
    }
    EntryRoundTrip(es[k], tail);
  }

  /** Written and read back, a run of entries comes back unchanged and the
      bytes after it are left alone. */
  lemma {:induction false} EntriesRoundTrip(es: seq<VictoryEntry>, rest: seq<u8>)
    ensures DecodeEntries(|es|, EncodeEntries(es) + rest) == Ok((es, rest))
  {
    var s := EncodeEntries(es) + rest;
    forall k | 0 <= k < |es|
      ensures EntryAt(s, k) == es[k]
    {
      EncodedEntryAt(es, rest, k);
    }
    var d := DecodeEntries(|es|, s).value;
    assert d.0 == es;
    assert d.1 == rest;
  }

  /** Reading `n` entries reads the first one, then `n - 1` more. */
  lemma EntriesHead(n: nat, s: seq<u8>)
    requires n > 0 && DecodeEntries(n, s).Ok?
    ensures EntrySize <= |s| &&
      DecodeEntry(s) == Ok((DecodeEntries(n, s).value.0[0], s[EntrySize..]))
    ensures s == EncodeEntry(DecodeEntries(n, s).value.0[0]) + s[EntrySize..]
  {
    assert EntrySize * 0 == 0 && s[EntrySize * 0..] == s;
    var first := DecodeEntry(s).value;
    assert s == EncodeEntry(first.0) + first.1;
    assert first.1 == s[EntrySize..];
  }

  /** The `k`-th entry read is the one at offset `k` times the size. */
  lemma EntriesAt(n: nat, s: seq<u8>, k: nat)
    requires k < n && DecodeEntries(n, s).Ok?
    ensures EntrySize * (k + 1) <= |s|
    ensures DecodeEntries(n, s).value.0[k] == EntryAt(s, k)
  {
  }

  /** Dropping the first entry shifts the others down by one. */
  lemma EntryAtShift(n: nat, s: seq<u8>, k: nat)
    requires k + 1 < n && DecodeEntries(n, s).Ok?
    ensures DecodeEntries(n - 1, s[EntrySize..]).Ok?
    ensures DecodeEntries(n - 1, s[EntrySize..]).value.0[k] == DecodeEntries(n, s).value.0[k + 1]
  {
    Stride(EntrySize, n - 1, n);
    Stride(EntrySize, k + 1, n);
    assert s[EntrySize..][EntrySize * k..] == s[EntrySize * (k + 1)..];
  }

  lemma EntriesTail(n: nat, s: seq<u8>)
    requires n > 0 && DecodeEntries(n, s).Ok?
    ensures var d := DecodeEntries(n, s).value;
      DecodeEntries(n - 1, s[EntrySize..]) == Ok((d.0[1..], d.1))
  {
    var d := DecodeEntries(n, s).value;
    assert DecodeEntries(n - 1, s[EntrySize..]).Ok? by { Stride(EntrySize, n - 1, n); }
    var tail := DecodeEntries(n - 1, s[EntrySize..]).value;
    forall k | 0 <= k < n - 1
      ensures tail.0[k] == d.0[1..][k]
    {
      EntryAtShift(n, s, k);
    }
    assert tail.0 == d.0[1..];
  }

  /** The entries read re-encode to exactly the bytes they were read from. */
  lemma {:induction false} EntriesConsumed(n: nat, s: seq<u8>)
    requires DecodeEntries(n, s).Ok?
    ensures EncodeEntries(DecodeEntries(n, s).value.0) + DecodeEntries(n, s).value.1 == s
  {
    if n > 0 {
      var d := DecodeEntries(n, s).value;
      assert s == EncodeEntry(d.0[0]) + s[EntrySize..] by { EntriesHead(n, s); }
      assert EncodeEntries(d.0[1..]) + d.1 == s[EntrySize..] by {
        EntriesTail(n, s);
        EntriesConsumed(n - 1, s[EntrySize..]);
      }
      assert EncodeEntries(d.0) == EncodeEntry(d.0[0]) + EncodeEntries(d.0[1..]);
      Assoc(EncodeEntry(d.0[0]), EncodeEntries(d.0[1..]), d.1);
    }
  }

  function EncodePointEntries(ps: seq<VictoryPointEntry>, version: F32): (r: seq<u8>)
    ensures |r| == PointEntrySize(version) * |ps|
  {
    if ps == [] then [] else EncodePointEntry(ps[0], version) + EncodePointEntries(ps[1..], version)
  }

  lemma {:induction false} EncodePointEntriesAppend(ps: seq<VictoryPointEntry>, p: VictoryPointEntry, version: F32)
    ensures EncodePointEntries(ps + [p], version) == EncodePointEntries(ps, version) + EncodePointEntry(p, version)
  {
    if ps == [] {
      assert ps + [p] == [p];
      assert EncodePointEntries([p], version) == EncodePointEntry(p, version) + EncodePointEntries([], version);
    } else {
      assert (ps + [p])[1..] == ps[1..] + [p];
      EncodePointEntriesAppend(ps[1..], p, version);
    }
  }

  /** The `k`-th point entry of a run at `version`. */
  function PointEntryAt(s: seq<u8>, version: F32, k: nat): VictoryPointEntry
    requires PointEntrySize(version) * (k + 1) <= |s|
  {
    Stride(PointEntrySize(version), k, k + 1);
    DecodePointEntry(s[PointEntrySize(version) * k..], version).value.0
  }

  /** Reads `n` point entries, each at the same `version`. */
  function DecodePointEntries(n: nat, version: F32, s: seq<u8>): (r: Result<(seq<VictoryPointEntry>, seq<u8>)>)
    ensures r.Ok? <==> |s| >= PointEntrySize(version) * n
    ensures r.Ok? ==> |r.value.0| == n && r.value.1 == s[PointEntrySize(version) * n..]
    ensures r.Err? ==> r.error == UnexpectedEof
  {
    if |s| < PointEntrySize(version) * n then Err(UnexpectedEof)
    else
      Ok((seq(n, k requires 0 <= k < n => Stride(PointEntrySize(version), k, n); PointEntryAt(s, version, k)),
          s[PointEntrySize(version) * n..]))
  }

  /** What a run of point entries keeps through a round trip at `version`. */
  function RetainedPoints(ps: seq<VictoryPointEntry>, version: F32): (r: seq<VictoryPointEntry>)
    ensures |r| == |ps|
  {
    seq(|ps|, i requires 0 <= i < |ps| => RetainedPoint(ps[i], version))
  }

  lemma {:induction false} EncodePointEntriesDrop(ps: seq<VictoryPointEntry>, version: F32, k: nat)
    requires k <= |ps|
    ensures EncodePointEntries(ps, version)[PointEntrySize(version) * k..] == EncodePointEntries(ps[k..], version)
  {
    if k > 0 {
      var size := PointEntrySize(version);
      var head := EncodePointEntry(ps[0], version);
      var tail := EncodePointEntries(ps[1..], version);
      assert EncodePointEntries(ps, version) == head + tail;
      Stride(size, k - 1, k);
      assert (head + tail)[size * k..] == tail[size * (k - 1)..] by {
        DropPast(head, tail, size * (k - 1));
      }
      EncodePointEntriesDrop(ps[1..], version, k - 1);
      assert ps[1..][k - 1..] == ps[k..];
    }
  }

  /** The `k`-th point entry of an encoded run is what the version retains
      of the `k`-th point entry written. */
  lemma EncodedPointSuffix(ps: seq<VictoryPointEntry>, version: F32, rest: seq<u8>, k: nat)
    requires k < |ps|
    ensures PointEntrySize(version) * (k + 1) <= |EncodePointEntries(ps, version) + rest|
    ensures (EncodePointEntries(ps, version) + rest)[PointEntrySize(version) * k..]
         == EncodePointEntry(ps[k], version) + (EncodePointEntries(ps[k + 1..], version) + rest)
  {
    var size := PointEntrySize(version);
    var a := EncodePointEntries(ps, version);
    assert size * k <= |a| && size * (k + 1) <= |a| by { Stride(size, k, |ps|); }
    DropAppend(a, rest, size * k);
    EncodePointEntriesDrop(ps, version, k);
    assert ps[k..][1..] == ps[k + 1..];
    Assoc(EncodePointEntry(ps[k], version), EncodePointEntries(ps[k + 1..], version), rest);
  }

  lemma EncodedPointEntryAt(ps: seq<VictoryPointEntry>, version: F32, rest: seq<u8>, k: nat)
    requires k < |ps|
    ensures PointEntrySize(version) * (k + 1) <= |EncodePointEntries(ps, version) + rest|
    ensures PointEntryAt(EncodePointEntries(ps, version) + rest, version, k) == RetainedPoint(ps[k], version)
  {
    EncodedPointSuffix(ps, version, rest, k);
    PointRoundTrip(ps[k], version, EncodePointEntries(ps[k + 1..], version) + rest);
  }

  /** Written and read back at one version, a run of point entries comes
      back as that version retains it, and the bytes after it are left
      alone. */
  lemma {:induction false} PointEntriesRoundTrip(ps: seq<VictoryPointEntry>, version: F32, rest: seq<u8>)
    ensures DecodePointEntries(|ps|, version, EncodePointEntries(ps, version) + rest)
         == Ok((RetainedPoints(ps, version), rest))
  {
    var s := EncodePointEntries(ps, version) + rest;
    var size := PointEntrySize(version);
    forall k | 0 <= k < |ps|
      ensures PointEntryAt(s, version, k) == RetainedPoint(ps[k], version)
    {
      EncodedPointEntryAt(ps, version, rest, k);
    }
    var d := DecodePointEntries(|ps|, version, s).value;
    assert d.0 == RetainedPoints(ps, version);
    assert d.1 == rest;
  }

  /** Reading `n` point entries reads the first one, then `n - 1` more. */
  lemma PointEntriesHead(n: nat, version: F32, s: seq<u8>)
    requires n > 0 && DecodePointEntries(n, version, s).Ok?
    ensures PointEntrySize(version) <= |s| &&
      DecodePointEntry(s, version)
        == Ok((DecodePointEntries(n, version, s).value.0[0], s[PointEntrySize(version)..]))
    ensures s == EncodePointEntry(DecodePointEntries(n, version, s).value.0[0], version) + s[PointEntrySize(version)..]
  {
    var size := PointEntrySize(version);
    Stride(size, 0, n);
    assert size * 0 == 0 && s[size * 0..] == s;
    var first := DecodePointEntry(s, version).value;
    assert s == EncodePointEntry(first.0, version) + first.1;
    assert first.1 == s[size..];
  }

  /** The `k`-th point entry read is the one at offset `k` times the size. */
  lemma PointEntriesAt(n: nat, version: F32, s: seq<u8>, k: nat)
    requires k < n && DecodePointEntries(n, version, s).Ok?
    ensures PointEntrySize(version) * (k + 1) <= |s|
    ensures DecodePointEntries(n, version, s).value.0[k] == PointEntryAt(s, version, k)
  {
    Stride(PointEntrySize(version), k, n);
  }

  /** Dropping the first point entry shifts the others down by one. */
  lemma PointEntryAtNext(s: seq<u8>, version: F32, k: nat)
    requires PointEntrySize(version) * (k + 2) <= |s|
    ensures PointEntrySize(version) * (k + 1) <= |s[PointEntrySize(version)..]|
    ensures PointEntryAt(s[PointEntrySize(version)..], version, k) == PointEntryAt(s, version, k + 1)
  {
    var size := PointEntrySize(version);
    assert size * k + size == size * (k + 1) && size * (k + 1) + size == size * (k + 2) by {
      Stride(size, k, k + 1);
      Stride(size, k + 1, k + 2);
    }
    assert s[size..][size * k..] == s[size * (k + 1)..];
  }

  lemma PointEntryAtShift(n: nat, version: F32, s: seq<u8>, k: nat)
    requires k + 1 < n && DecodePointEntries(n, version, s).Ok?
    ensures DecodePointEntries(n - 1, version, s[PointEntrySize(version)..]).Ok?
    ensures DecodePointEntries(n - 1, version, s[PointEntrySize(version)..]).value.0[k]
         == DecodePointEntries(n, version, s).value.0[k + 1]
  {
    var size := PointEntrySize(version);
    assert size * (k + 2) <= |s| by { Stride(size, k + 1, n); }
    assert DecodePointEntries(n - 1, version, s[size..]).Ok? by { Stride(size, n - 1, n); }
    PointEntriesAt(n - 1, version, s[size..], k);
    PointEntriesAt(n, version, s, k + 1);
    PointEntryAtNext(s, version, k);
  }

  lemma PointEntriesTail(n: nat, version: F32, s: seq<u8>)
    requires n > 0 && DecodePointEntries(n, version, s).Ok?
    ensures var d := DecodePointEntries(n, version, s).value;
      DecodePointEntries(n - 1, version, s[PointEntrySize(version)..]) == Ok((d.0[1..], d.1))
  {
    var size := PointEntrySize(version);
    var d := DecodePointEntries(n, version, s).value;
    assert DecodePointEntries(n - 1, version, s[size..]).Ok? by { Stride(size, n - 1, n); }
    var tail := DecodePointEntries(n - 1, version, s[size..]).value;
    forall k | 0 <= k < n - 1
      ensures tail.0[k] == d.0[1..][k]
    {
      PointEntryAtShift(n, version, s, k);
    }
    assert tail.0 == d.0[1..];
  }

  /** The point entries read re-encode to exactly the bytes they were read
      from. */
  lemma {:induction false} PointEntriesConsumed(n: nat, version: F32, s: seq<u8>)
    requires DecodePointEntries(n, version, s).Ok?
    ensures EncodePointEntries(DecodePointEntries(n, version, s).value.0, version)
          + DecodePointEntries(n, version, s).value.1 == s
  {
    if n > 0 {
      var size := PointEntrySize(version);
      var d := DecodePointEntries(n, version, s).value;
      assert s == EncodePointEntry(d.0[0], version) + s[size..] by { PointEntriesHead(n, version, s); }
      assert EncodePointEntries(d.0[1..], version) + d.1 == s[size..] by {
        PointEntriesTail(n, version, s);
        PointEntriesConsumed(n - 1, version, s[size..]);
      }
      assert EncodePointEntries(d.0, version) == EncodePointEntry(d.0[0], version) + EncodePointEntries(d.0[1..], version);
      Assoc(EncodePointEntry(d.0[0], version), EncodePointEntries(d.0[1..], version), d.1);
    }
  }

  // ---------------------------------------------------------------------
  // The whole record

  /** The version word: read when the stream has one, 0.0 otherwise. */
  function DecodeVersion(s: seq<u8>, hasVersion: bool): (r: Result<(F32, seq<u8>)>)
    ensures r.Ok? <==> !hasVersion || |s| >= 4
    ensures r.Ok? && hasVersion ==> r.value.0 == F32(WordAt(s, 0)) && r.value.1 == s[4..]
    ensures !hasVersion ==> r == Ok((Zero, s))
  {
    if hasVersion then
      var v :- ReadF32(s);
      assert s[0..4] == LeBytes(v.0.bits) && v.1 == s[4..] by {
        assert s == LeBytes(v.0.bits) + v.1;
      }
      LeRoundTrip(v.0.bits);
      Ok(v)
    else
      Ok((Zero, s))
  }

  /** The count word, the state byte and the entries, filled into a record
      at `version` whose version-gated fields hold their defaults. The
      entries are exactly as many as the count word says, none for a
      negative count, and an unknown state code aborts the read. */
  function DecodeHead(s: seq<u8>, version: F32): (r: Result<(VictoryConditions, seq<u8>)>)
    ensures r.Ok? ==> |s| >= 5
    ensures r.Ok? ==>
      var c := r.value.0;
      c.version == version && StateCode(c.victory) == s[4] &&
      c.totalPoints == 0 && c.startingPoints == 0 && c.startingGroup == 0 && c.pointEntries == [] &&
      |c.entries| == Count(I32OfBits(WordAt(s, 0))) &&
      EncodeEntries(c.entries) + r.value.1 == s[5..]
    ensures r.Ok? ==> r.value.1 == s[5 + EntrySize * |r.value.0.entries|..]
    ensures |s| >= 5 && s[4] >= 4 ==> r == Err(InvalidVictoryState(s[4]))
  {
    var n :- ReadI32(s);
    assert s[0..4] == PutI32(n.0) && n.1 == s[4..] by {
      assert s == PutI32(n.0) + n.1;
    }
    var b :- ReadByte(n.1);
    assert b.0 == s[4] && b.1 == s[5..] by {
      assert n.1 == [b.0] + b.1;
    }
    var victory :- StateOfCode(b.0);
    var es :- DecodeEntries(Count(n.0), b.1);
    EntriesConsumed(Count(n.0), b.1);
    LeRoundTrip(I32Bits(n.0));
    Ok((VictoryConditions(version, victory, 0, 0, 0, es.0, []), es.1))
  }

  /** The two starting values, which exist only from version 2.0 on: there
      they are the next two words, written back as they were read; below
      2.0 they are 0 and nothing is read. */
  function DecodeStarting(s: seq<u8>, version: F32): (r: Result<((i32, i32), seq<u8>)>)
    ensures r.Ok? <==> !AtLeast2(version) || |s| >= 8
    ensures r.Ok? && AtLeast2(version) ==>
      r.value == ((I32OfBits(WordAt(s, 0)), I32OfBits(WordAt(s, 1))), s[8..]) &&
      PutI32(r.value.0.0) + PutI32(r.value.0.1) + r.value.1 == s
    ensures !AtLeast2(version) ==> r == Ok(((0, 0), s))
  {
    if AtLeast2(version) then
      var a :- ReadI32(s);
      var b :- ReadI32(a.1);
      assert a == (I32OfBits(WordAt(s, 0)), s[4..]) by { ReadI32Word(s); }
      assert b == (I32OfBits(WordAt(s, 1)), s[8..]) by {
        ReadI32Word(s[4..]);
        WordAtDrop(s, 1, 0);
        assert s[4..][4..] == s[8..];
      }
      Ok(((a.0, b.0), b.1))
    else
      Ok(((0, 0), s))
  }

  /** The fields read only from version 1.0 on, filled into `c`, whose
      version decides the branches and whose other fields hold the
      defaults. Below 1.0 nothing is read. From 1.0 on the total points are
      the first word and the point entries are as many as the second word
      says; from 2.0 on the starting values are the next two words, and
      below 2.0 they are 0. The version, state and entries never change. */
  function DecodePointSection(s: seq<u8>, c: VictoryConditions): (r: Result<(VictoryConditions, seq<u8>)>)
    ensures !AtLeast1(c.version) ==> r == Ok((c, s))
    ensures r.Ok? ==>
      var d := r.value.0;
      d.version == c.version && d.victory == c.victory && d.entries == c.entries
    ensures r.Ok? && AtLeast1(c.version) ==>
      |s| >= 8 && r.value.0.totalPoints == I32OfBits(WordAt(s, 0)) &&
      |r.value.0.pointEntries| == Count(I32OfBits(WordAt(s, 1)))
    ensures r.Ok? && AtLeast2(c.version) ==>
      |s| >= 16 && r.value.0.startingPoints == I32OfBits(WordAt(s, 2)) &&
      r.value.0.startingGroup == I32OfBits(WordAt(s, 3))
    ensures r.Ok? && AtLeast1(c.version) && !AtLeast2(c.version) ==>
      r.value.0.startingPoints == 0 && r.value.0.startingGroup == 0
  {
    if !AtLeast1(c.version) then Ok((c, s))
    else
      var total :- ReadI32(s);
      var m :- ReadI32(total.1);
      assert total == (I32OfBits(WordAt(s, 0)), s[4..]) by { ReadI32Word(s); }
      assert m == (I32OfBits(WordAt(s, 1)), s[8..]) by {
        ReadI32Word(s[4..]);
        WordAtDrop(s, 1, 0);
        assert s[4..][4..] == s[8..];
      }
      var starting :- DecodeStarting(m.1, c.version);
      assert AtLeast2(c.version) ==>
        starting.0 == (I32OfBits(WordAt(s, 2)), I32OfBits(WordAt(s, 3))) by {
        if AtLeast2(c.version) {
          WordAtDrop(s, 2, 0);
          WordAtDrop(s, 2, 1);
        }
      }
      var ps :- DecodePointEntries(Count(m.0), c.version, starting.1);
      Ok((c.(totalPoints := total.0, startingPoints := starting.0.0,
             startingGroup := starting.0.1, pointEntries := ps.0), ps.1))
  }

  /** Everything after the version word, read at `version`. */
  function DecodeBody(s: seq<u8>, version: F32): (r: Result<(VictoryConditions, seq<u8>)>)
    ensures r.Ok? ==> |s| >= 5 && r.value.0.version == version && StateCode(r.value.0.victory) == s[4]
    ensures r.Ok? ==> |r.value.0.entries| == Count(I32OfBits(WordAt(s, 0)))
    ensures r.Ok? && !AtLeast1(version) ==>
      r.value.0.totalPoints == 0 && r.value.0.pointEntries == [] &&
      EncodeEntries(r.value.0.entries) + r.value.1 == s[5..]
    ensures r.Ok? && !AtLeast2(version) ==>
      r.value.0.startingPoints == 0 && r.value.0.startingGroup == 0
    ensures |s| >= 5 && s[4] >= 4 ==> r == Err(InvalidVictoryState(s[4]))
  {
    var h :- DecodeHead(s, version);
    DecodePointSection(h.1, h.0)
  }

  /** `VictoryConditions::read_from`: the version word when the stream has
      one, then the body read at that version. */
  function DecodeConditions(s: seq<u8>, hasVersion: bool): (r: Result<(VictoryConditions, seq<u8>)>)
    ensures r.Ok? && hasVersion ==> |s| >= 4 && r.value.0.version == F32(WordAt(s, 0))
    ensures r.Ok? && !hasVersion ==> r.value.0.version == Zero
  {
    var v :- DecodeVersion(s, hasVersion);
    DecodeBody(v.1, v.0)
  }

  /** The count word, written as `len() as i32`, the state byte and the
      entries: five bytes and one entry's size per entry. */
  function EncodeHead(c: VictoryConditions): (b: seq<u8>)
    ensures |b| == 5 + EntrySize * |c.entries|
  {
    PutI32(WrapI32(|c.entries|)) + [StateCode(c.victory)] + EncodeEntries(c.entries)
  }

  /** The two starting values, written only from version 2.0 on. */
  function EncodeStarting(c: VictoryConditions, version: F32): (b: seq<u8>)
    ensures |b| == if AtLeast2(version) then 8 else 0
  {
    if AtLeast2(version) then PutI32(c.startingPoints) + PutI32(c.startingGroup) else []
  }

  /** The fields written only from version 1.0 on: the total points, the
      number of point entries as `len() as i32`, the starting values from
      2.0 on and the point entries at `version`. */
  function EncodePointSection(c: VictoryConditions, version: F32): (b: seq<u8>)
    ensures |b| ==
      if !AtLeast1(version) then 0
      else if !AtLeast2(version) then 8 + 24 * |c.pointEntries|
      else 16 + 32 * |c.pointEntries|
  {
    if AtLeast1(version) then
      PutI32(c.totalPoints) + PutI32(WrapI32(|c.pointEntries|))
      + EncodeStarting(c, version) + EncodePointEntries(c.pointEntries, version)
    else []
  }

  /** Everything after the version word, written at `version`. */
  function EncodeBody(c: VictoryConditions, version: F32): (b: seq<u8>)
    ensures |b| ==
      5 + EntrySize * |c.entries|
      + (if !AtLeast1(version) then 0
         else if !AtLeast2(version) then 8 + 24 * |c.pointEntries|
         else 16 + 32 * |c.pointEntries|)
  {
    EncodeHead(c) + EncodePointSection(c, version)
  }

  /** `VictoryConditions::write_to`: the version word only when one is
      given, then the body written at the effective version. */
  function EncodeConditions(c: VictoryConditions, version: Option<F32>): (b: seq<u8>)
    ensures var v := EffectiveVersion(version);
      |b| ==
        (if version.Some? then 4 else 0) + 5 + EntrySize * |c.entries|
        + (if !AtLeast1(v) then 0
           else if !AtLeast2(v) then 8 + 24 * |c.pointEntries|
           else 16 + 32 * |c.pointEntries|)
  {
    (if version.Some? then LeBytes(version.value.bits) else [])
    + EncodeBody(c, EffectiveVersion(version))
  }

  /** What of `c` survives being written and read back at `version`: every
      field that `version` makes present; the others take their defaults. */
  function Retained(c: VictoryConditions, version: F32): VictoryConditions
  {
    if !AtLeast1(version) then
      VictoryConditions(version, c.victory, 0, 0, 0, c.entries, [])
    else if !AtLeast2(version) then
      VictoryConditions(version, c.victory, c.totalPoints, 0, 0, c.entries,
                        RetainedPoints(c.pointEntries, version))
    else
      c.(version := version, pointEntries := RetainedPoints(c.pointEntries, version))
  }

  lemma PointTiers(p: VictoryPointEntry, w: F32, v: F32)
    requires AtLeast2(w) == AtLeast2(v)
    ensures EncodePointEntry(p, w) == EncodePointEntry(p, v)
  {
    assert PointFields(p, w) == PointFields(p, v);
  }

  lemma {:induction false} PointEntriesTiers(ps: seq<VictoryPointEntry>, w: F32, v: F32)
    requires AtLeast2(w) == AtLeast2(v)
    ensures EncodePointEntries(ps, w) == EncodePointEntries(ps, v)
  {
    if ps != [] {
      PointTiers(ps[0], w, v);
      PointEntriesTiers(ps[1..], w, v);
    }
  }

  lemma StartingRoundTrip(c: VictoryConditions, w: F32, v: F32, rest: seq<u8>)
    requires AtLeast2(w) == AtLeast2(v)
    ensures DecodeStarting(EncodeStarting(c, w) + rest, v) ==
      if AtLeast2(v) then Ok(((c.startingPoints, c.startingGroup), rest)) else Ok(((0, 0), rest))
  {
    if AtLeast2(v) {
      var tail := PutI32(c.startingGroup) + rest;
      assert EncodeStarting(c, w) + rest == PutI32(c.startingPoints) + tail;
      ReadI32Put(c.startingPoints, tail);
      ReadI32Put(c.startingGroup, rest);
    } else {
      assert EncodeStarting(c, w) + rest == rest;
    }
  }

  /** The point section read as the sequence of its steps. */
  lemma PointSectionSteps(d: VictoryConditions, s1: seq<u8>, s2: seq<u8>, s3: seq<u8>, s4: seq<u8>, rest: seq<u8>,
                          total: i32, m: i32, sp: i32, sg: i32, ps: seq<VictoryPointEntry>)
    requires AtLeast1(d.version)
    requires ReadI32(s1) == Ok((total, s2)) && ReadI32(s2) == Ok((m, s3))
    requires DecodeStarting(s3, d.version) == Ok(((sp, sg), s4))
    requires DecodePointEntries(Count(m), d.version, s4) == Ok((ps, rest))
    ensures DecodePointSection(s1, d)
         == Ok((d.(totalPoints := total, startingPoints := sp, startingGroup := sg, pointEntries := ps), rest))
  {
  }

  /** The point section at `w`, split into its fields as read at `v`. */
  lemma PointSectionBytes(c: VictoryConditions, w: F32, v: F32, rest: seq<u8>)
    requires SameTiers(w, v) && AtLeast1(w)
    ensures EncodePointSection(c, w) + rest
         == PutI32(c.totalPoints) + (PutI32(WrapI32(|c.pointEntries|))
            + (EncodeStarting(c, w) + (EncodePointEntries(c.pointEntries, v) + rest)))
  {
    PointEntriesTiers(c.pointEntries, w, v);
  }

  lemma {:induction false} PointSectionRoundTrip(c: VictoryConditions, w: F32, v: F32, rest: seq<u8>)
    requires SameTiers(w, v)
    requires AtLeast1(w) ==> |c.pointEntries| <= MaxI32
    ensures DecodePointSection(EncodePointSection(c, w) + rest,
                               VictoryConditions(v, c.victory, 0, 0, 0, c.entries, []))
         == Ok((Retained(c, v), rest))
  {
    if AtLeast1(w) {
      var ps := c.pointEntries;
      var s4 := EncodePointEntries(ps, v) + rest;
      var s3 := EncodeStarting(c, w) + s4;
      var s2 := PutI32(WrapI32(|ps|)) + s3;
      var s1 := PutI32(c.totalPoints) + s2;
      PointSectionBytes(c, w, v, rest);
      assert ReadI32(s1) == Ok((c.totalPoints, s2)) by {
        ReadI32Put(c.totalPoints, s2);
      }
      assert ReadI32(s2) == Ok((WrapI32(|ps|), s3)) by {
        ReadI32Put(WrapI32(|ps|), s3);
      }
      var sp := if AtLeast2(v) then c.startingPoints else 0;
      var sg := if AtLeast2(v) then c.startingGroup else 0;
      assert DecodeStarting(s3, v) == Ok(((sp, sg), s4)) by {
        StartingRoundTrip(c, w, v, s4);
      }
      assert DecodePointEntries(Count(WrapI32(|ps|)), v, s4) == Ok((RetainedPoints(ps, v), rest)) by {
        PointEntriesRoundTrip(ps, v, rest);
      }
      var d := VictoryConditions(v, c.victory, 0, 0, 0, c.entries, []);
      PointSectionSteps(d, s1, s2, s3, s4, rest, c.totalPoints, WrapI32(|ps|), sp, sg, RetainedPoints(ps, v));
      assert Retained(c, v) == d.(totalPoints := c.totalPoints, startingPoints := sp,
                                  startingGroup := sg, pointEntries := RetainedPoints(ps, v));
    } else {
      assert EncodePointSection(c, w) + rest == rest;
    }
  }

  lemma HeadRoundTrip(c: VictoryConditions, v: F32, rest: seq<u8>)
    requires |c.entries| <= MaxI32
    ensures DecodeHead(EncodeHead(c) + rest, v)
         == Ok((VictoryConditions(v, c.victory, 0, 0, 0, c.entries, []), rest))
  {
    var s2 := EncodeEntries(c.entries) + rest;
    var s1 := [StateCode(c.victory)] + s2;
    assert EncodeHead(c) + rest == PutI32(WrapI32(|c.entries|)) + s1;
    ReadI32Put(WrapI32(|c.entries|), s1);
    ReadBytePut(StateCode(c.victory), s2);
    StateRoundTrip(c.victory);
    assert Count(WrapI32(|c.entries|)) == |c.entries|;
    EntriesRoundTrip(c.entries, rest);
  }

  /** Written at `w` and read at `v`, where both take the same branches, the
      body gives back what `v` retains and leaves the rest of the input. */
  lemma {:induction false} BodyRoundTrip(c: VictoryConditions, w: F32, v: F32, rest: seq<u8>)
    requires SameTiers(w, v)
    requires |c.entries| <= MaxI32
    requires AtLeast1(w) ==> |c.pointEntries| <= MaxI32
    ensures DecodeBody(EncodeBody(c, w) + rest, v) == Ok((Retained(c, v), rest))
  {
    var tail := EncodePointSection(c, w) + rest;
    var d := VictoryConditions(v, c.victory, 0, 0, 0, c.entries, []);
    assert EncodeBody(c, w) + rest == EncodeHead(c) + tail;
    assert DecodeHead(EncodeHead(c) + tail, v) == Ok((d, tail)) by {
      HeadRoundTrip(c, v, tail);
    }
    assert DecodePointSection(tail, d) == Ok((Retained(c, v), rest)) by {
      PointSectionRoundTrip(c, w, v, rest);
    }
  }

  /** Written with version `v` and read back from a stream that has a
      version word, the record comes back with version `v`, the same state
      and entries, and every field `v` makes present. */
  lemma {:induction false} RoundTrip(c: VictoryConditions, v: F32, rest: seq<u8>)
    requires |c.entries| <= MaxI32
    requires AtLeast1(v) ==> |c.pointEntries| <= MaxI32
    ensures DecodeConditions(EncodeConditions(c, Some(v)) + rest, true) == Ok((Retained(c, v), rest))
  {
    var body := EncodeBody(c, v) + rest;
    var s := EncodeConditions(c, Some(v)) + rest;
    assert s == LeBytes(v.bits) + body;
    assert DecodeVersion(s, true) == Ok((v, body)) by { ReadF32Put(v, body); }
    BodyRoundTrip(c, v, v, rest);
  }

  /** Written without a version and read back from a stream without one,
      the record comes back at version 0.0 with the same state and entries
      and every version-gated field at its default. */
  lemma {:induction false} RoundTripUnversioned(c: VictoryConditions, rest: seq<u8>)
    requires |c.entries| <= MaxI32
    ensures DecodeConditions(EncodeConditions(c, None) + rest, false) == Ok((Retained(c, Zero), rest))
  {
    assert EncodeConditions(c, None) == EncodeBody(c, MinF32);
    BodyRoundTrip(c, MinF32, Zero, rest);
  }

  // ---------------------------------------------------------------------
  // Read, then written back. Every field the reader fills comes from the
  // stream, and the writer puts back exactly the bytes read, provided the
  // two count words are not negative: a negative count reads no entries,
  // and `len() as i32` then writes 0.

  /** A body is its head followed by the version-gated section, which is
      read into the head's record. */
  lemma BodySplit(s: seq<u8>, version: F32, c: VictoryConditions, rest: seq<u8>)
    requires DecodeBody(s, version) == Ok((c, rest))
    ensures var p := 5 + EntrySize * |c.entries|;
      |s| >= p &&
      DecodePointSection(s[p..], VictoryConditions(version, c.victory, 0, 0, 0, c.entries, [])) == Ok((c, rest))
  {
    var h := BodyHead(s, version, c, rest);
    HeadShape(s, version, h.0, h.1, c, rest);
  }

  /** A body read is a head read and then a section read. */
  lemma BodyHead(s: seq<u8>, version: F32, c: VictoryConditions, rest: seq<u8>) returns (h: (VictoryConditions, seq<u8>))
    requires DecodeBody(s, version) == Ok((c, rest))
    ensures DecodeHead(s, version) == Ok(h) && DecodePointSection(h.1, h.0) == Ok((c, rest))
  {
    h := DecodeHead(s, version).value;
  }

  /** The head's record is the section's record before its gated fields are
      filled in, and the section starts right behind the entries. */
  lemma HeadShape(s: seq<u8>, version: F32, h0: VictoryConditions, h1: seq<u8>, c: VictoryConditions, rest: seq<u8>)
    requires DecodeHead(s, version) == Ok((h0, h1)) && DecodePointSection(h1, h0) == Ok((c, rest))
    ensures h0 == VictoryConditions(version, c.victory, 0, 0, 0, c.entries, [])
    ensures h1 == s[5 + EntrySize * |c.entries|..]
  {
    assert h0.version == version && h0.totalPoints == 0 && h0.startingPoints == 0 &&
      h0.startingGroup == 0 && h0.pointEntries == [] && h1 == s[5 + EntrySize * |h0.entries|..];
    assert h0.victory == c.victory && h0.entries == c.entries;
  }

  /** The version-gated words of a body sit right behind its entries. */
  lemma BodyReads(s: seq<u8>, version: F32, c: VictoryConditions, rest: seq<u8>)
    requires DecodeBody(s, version) == Ok((c, rest))
    ensures AtLeast1(version) ==>
      var p := 5 + EntrySize * |c.entries|;
      |s| >= p + 8 && c.totalPoints == I32OfBits(WordAt(s[p..], 0)) &&
      |c.pointEntries| == Count(I32OfBits(WordAt(s[p..], 1)))
    ensures AtLeast2(version) ==>
      var p := 5 + EntrySize * |c.entries|;
      |s| >= p + 16 && c.startingPoints == I32OfBits(WordAt(s[p..], 2)) &&
      c.startingGroup == I32OfBits(WordAt(s[p..], 3))
  {
    BodySplit(s, version, c, rest);
  }

  /** A record read is the optional version word and then a body read at
      that version. */
  lemma ConditionsSplit(s: seq<u8>, hasVersion: bool, c: VictoryConditions, rest: seq<u8>)
    requires DecodeConditions(s, hasVersion) == Ok((c, rest))
    ensures var o := if hasVersion then 4 else 0;
      |s| >= o && DecodeBody(s[o..], c.version) == Ok((c, rest))
    ensures hasVersion ==> s == LeBytes(c.version.bits) + s[4..]
    ensures !hasVersion ==> c.version == Zero
  {
    var v := DecodeVersion(s, hasVersion).value;
    assert DecodeBody(v.1, v.0) == Ok((c, rest));
    if hasVersion {
      assert ReadF32(s).value == v;
    }
  }

  /** Where `read_from` takes each field: the state byte and the number of
      entries behind the optional version word, and from version 1.0 on the
      total points, the number of point entries and from 2.0 on the
      starting values right behind the entries. */
  lemma ConditionsReads(s: seq<u8>, hasVersion: bool, c: VictoryConditions, rest: seq<u8>)
    requires DecodeConditions(s, hasVersion) == Ok((c, rest))
    ensures var o := if hasVersion then 4 else 0;
      |s| >= o + 5 && StateCode(c.victory) == s[o + 4] &&
      |c.entries| == Count(I32OfBits(WordAt(s[o..], 0)))
    ensures AtLeast1(c.version) ==>
      var p := (if hasVersion then 4 else 0) + 5 + EntrySize * |c.entries|;
      |s| >= p + 8 && c.totalPoints == I32OfBits(WordAt(s[p..], 0)) &&
      |c.pointEntries| == Count(I32OfBits(WordAt(s[p..], 1)))
    ensures AtLeast2(c.version) ==>
      var p := (if hasVersion then 4 else 0) + 5 + EntrySize * |c.entries|;
      |s| >= p + 16 && c.startingPoints == I32OfBits(WordAt(s[p..], 2)) &&
      c.startingGroup == I32OfBits(WordAt(s[p..], 3))
  {
    var o := if hasVersion then 4 else 0;
    ConditionsSplit(s, hasVersion, c, rest);
    BodyReads(s[o..], c.version, c, rest);
    var p := 5 + EntrySize * |c.entries|;
    if AtLeast1(c.version) {
      WordAtSuffix(s, o, p, 0);
      WordAtSuffix(s, o, p, 1);
    }
    if AtLeast2(c.version) {
      WordAtSuffix(s, o, p, 2);
      WordAtSuffix(s, o, p, 3);
    }
  }

  /** The head read, written back, gives the bytes it was read from. */
  lemma HeadReencode(s: seq<u8>, version: F32, h: VictoryConditions, rest: seq<u8>)
    requires DecodeHead(s, version) == Ok((h, rest))
    requires I32OfBits(WordAt(s, 0)) >= 0
    ensures EncodeHead(h) + rest == s
  {
    var n := I32OfBits(WordAt(s, 0));
    ReadI32Word(s);
    assert WrapI32(|h.entries|) == n;
    assert s == PutI32(n) + [s[4]] + s[5..];
    Assoc(PutI32(n) + [s[4]], EncodeEntries(h.entries), rest);
  }

  /** The version-gated section read, written back at the same version,
      gives the bytes it was read from. */
  lemma SectionReencode(s: seq<u8>, c: VictoryConditions)
    requires DecodePointSection(s, c).Ok?
    requires AtLeast1(c.version) ==> I32OfBits(WordAt(s, 1)) >= 0
    ensures var d := DecodePointSection(s, c).value;
      EncodePointSection(d.0, c.version) + d.1 == s
  {
    if AtLeast1(c.version) {
      var v := c.version;
      var total := ReadI32(s).value;
      var m := ReadI32(total.1).value;
      var st := DecodeStarting(m.1, v).value;
      var ps := DecodePointEntries(Count(m.0), v, st.1).value;
      var d := DecodePointSection(s, c).value;
      assert d.0.pointEntries == ps.0 && d.1 == ps.1;
      assert m.0 == I32OfBits(WordAt(s, 1)) by {
        ReadI32Word(s);
        ReadI32Word(s[4..]);
        WordAtDrop(s, 1, 0);
      }
      assert WrapI32(|ps.0|) == m.0;
      assert EncodePointEntries(ps.0, v) + ps.1 == st.1 by {
        PointEntriesConsumed(Count(m.0), v, st.1);
      }
      assert EncodeStarting(d.0, v) + st.1 == m.1;
      PointSectionBytes(d.0, v, v, d.1);
    }
  }

  /** The count words of a body holding `n` entries are not negative: the
      number of entries at its front and, from version 1.0 on, the number
      of point entries behind the total points that follow the entries. */
  predicate CountsNonNegative(s: seq<u8>, n: nat, version: F32)
  {
    |s| >= 4 && I32OfBits(WordAt(s, 0)) >= 0 &&
    (AtLeast1(version) ==>
      var p := 5 + EntrySize * n;
      |s| >= p + 8 && I32OfBits(WordAt(s[p..], 1)) >= 0)
  }

  /** The body read, written back at the same version, gives the bytes it
      was read from. */
  lemma BodyReencode(s: seq<u8>, version: F32, c: VictoryConditions, rest: seq<u8>)
    requires DecodeBody(s, version) == Ok((c, rest))
    requires CountsNonNegative(s, |c.entries|, version)
    ensures EncodeBody(c, version) + rest == s
  {
    var h := BodyHead(s, version, c, rest);
    HeadShape(s, version, h.0, h.1, c, rest);
    HeadReencode(s, version, h.0, h.1);
    SectionReencode(h.1, h.0);
    assert EncodeHead(h.0) == EncodeHead(c);
    Assoc(EncodeHead(c), EncodePointSection(c, version), rest);
  }

  /** `read_from` followed by `write_to` with the version that was read, or
      without one when the stream had none, gives back the bytes read,
      provided neither count word is negative. */
  lemma ConditionsReencode(s: seq<u8>, hasVersion: bool, c: VictoryConditions, rest: seq<u8>)
    requires DecodeConditions(s, hasVersion) == Ok((c, rest))
    requires CountsNonNegative(s[if hasVersion then 4 else 0..], |c.entries|, c.version)
    ensures EncodeConditions(c, if hasVersion then Some(c.version) else None) + rest == s
  {
    ConditionsSplit(s, hasVersion, c, rest);
    BodyReencode(s[if hasVersion then 4 else 0..], c.version, c, rest);
    VersionThenBody(s, hasVersion, c, rest);
  }

  /** The optional version word followed by a body that re-encodes. */
  lemma VersionThenBody(s: seq<u8>, hasVersion: bool, c: VictoryConditions, rest: seq<u8>)
    requires var o := if hasVersion then 4 else 0;
      |s| >= o && EncodeBody(c, c.version) + rest == s[o..]
    requires hasVersion ==> s == LeBytes(c.version.bits) + s[4..]
    requires !hasVersion ==> c.version == Zero
    ensures EncodeConditions(c, if hasVersion then Some(c.version) else None) + rest == s
  {
    if hasVersion {
      Assoc(LeBytes(c.version.bits), EncodeBody(c, c.version), rest);
    } else {
      assert EncodeBody(c, MinF32) == EncodeBody(c, c.version);
    }
  }

  /** The writer's prefix: the version word only when a version is given,
      then the number of entries as `len() as i32` and the state code. */
  lemma HeadPrefix(c: VictoryConditions, version: Option<F32>)
    ensures var o := if version.Some? then 4 else 0;
      EncodeConditions(c, version)[..o] == (if version.Some? then LeBytes(version.value.bits) else []) &&
      EncodeConditions(c, version)[o..o + 5] == PutI32(WrapI32(|c.entries|)) + [StateCode(c.victory)]
  {
    var pre: seq<u8> := if version.Some? then LeBytes(version.value.bits) else [];
    var head := PutI32(WrapI32(|c.entries|)) + [StateCode(c.victory)];
    var tail := EncodeEntries(c.entries) + EncodePointSection(c, EffectiveVersion(version));
    ConditionsLayout(c, version);
    Middle(pre, head, tail);
  }

  /** The writer's output cut at the end of the head. */
  lemma ConditionsLayout(c: VictoryConditions, version: Option<F32>)
    ensures EncodeConditions(c, version)
         == (if version.Some? then LeBytes(version.value.bits) else [])
          + (PutI32(WrapI32(|c.entries|)) + [StateCode(c.victory)])
          + (EncodeEntries(c.entries) + EncodePointSection(c, EffectiveVersion(version)))
  {
    var head := PutI32(WrapI32(|c.entries|)) + [StateCode(c.victory)];
    var v := EffectiveVersion(version);
    Assoc(head, EncodeEntries(c.entries), EncodePointSection(c, v));
  }

  /** After the entries, from version 1.0 on, the writer puts the total
      points and the number of point entries as `len() as i32`. */
  lemma PointPrefix(c: VictoryConditions, version: Option<F32>)
    requires AtLeast1(EffectiveVersion(version))
    ensures var p := (if version.Some? then 4 else 0) + 5 + EntrySize * |c.entries|;
      EncodeConditions(c, version)[p..p + 8] == PutI32(c.totalPoints) + PutI32(WrapI32(|c.pointEntries|))
  {
    var v := EffectiveVersion(version);
    var pre: seq<u8> := if version.Some? then LeBytes(version.value.bits) else [];
    var counts := PutI32(c.totalPoints) + PutI32(WrapI32(|c.pointEntries|));
    var tail := EncodeStarting(c, v) + EncodePointEntries(c.pointEntries, v);
    assert EncodeConditions(c, version) == pre + EncodeHead(c) + counts + tail by {
      Assoc(pre, EncodeHead(c), EncodePointSection(c, v));
      Assoc(counts, EncodeStarting(c, v), EncodePointEntries(c.pointEntries, v));
      Assoc(pre + EncodeHead(c), counts, tail);
    }
    Middle(pre + EncodeHead(c), counts, tail);
  }

  /** A state byte above 3 aborts the read, whatever follows it. */
  lemma BadStateAborts(s: seq<u8>, hasVersion: bool)
    requires |s| >= (if hasVersion then 9 else 5)
    requires (if hasVersion then s[8] else s[4]) >= 4
    ensures DecodeConditions(s, hasVersion) == Err(InvalidVictoryState(if hasVersion then s[8] else s[4]))
  {
    if hasVersion {
      assert s[4..][4] == s[8];
    }
  }

  // ---------------------------------------------------------------------
  // The reader and the writer, as the source runs them

  /** Reading one more entry appends the entry at the next offset. */
  lemma EntriesSnoc(i: nat, s: seq<u8>)
    requires EntrySize * (i + 1) <= |s|
    ensures DecodeEntries(i, s).Ok?
    ensures DecodeEntries(i + 1, s) == Ok((DecodeEntries(i, s).value.0 + [EntryAt(s, i)], s[EntrySize * (i + 1)..]))
  {
    var a := DecodeEntries(i + 1, s).value.0;
    var b := DecodeEntries(i, s).value.0 + [EntryAt(s, i)];
    forall k | 0 <= k < i + 1
      ensures a[k] == b[k]
    {
      EntriesAt(i + 1, s, k);
      if k < i {
        EntriesAt(i, s, k);
      }
    }
    assert a == b;
  }

  /** Reading one more point entry appends the point entry at the next
      offset. */
  lemma PointEntriesSnoc(i: nat, version: F32, s: seq<u8>)
    requires PointEntrySize(version) * (i + 1) <= |s|
    ensures DecodePointEntries(i, version, s).Ok?
    ensures DecodePointEntries(i + 1, version, s)
         == Ok((DecodePointEntries(i, version, s).value.0 + [PointEntryAt(s, version, i)],
                s[PointEntrySize(version) * (i + 1)..]))
  {
    var size := PointEntrySize(version);
    assert size * i <= |s| by { Stride(size, i, i + 1); }
    var a := DecodePointEntries(i + 1, version, s).value.0;
    var b := DecodePointEntries(i, version, s).value.0 + [PointEntryAt(s, version, i)];
    forall k | 0 <= k < i + 1
      ensures a[k] == b[k]
    {
      PointEntriesAt(i + 1, version, s, k);
      if k < i {
        PointEntriesAt(i, version, s, k);
      }
    }
    assert a == b;
  }

  /** What the entry loop reads after `i` entries: the next entry of the
      run, or a short read that makes the whole run fail. */
  lemma EntryLoopStep(s: seq<u8>, i: nat, n: nat)
    requires i < n && EntrySize * i <= |s|
    ensures |s| < EntrySize * (i + 1) ==> DecodeEntry(s[EntrySize * i..]).Err? && DecodeEntries(n, s) == Err(UnexpectedEof)
    ensures |s| >= EntrySize * (i + 1) ==>
      DecodeEntry(s[EntrySize * i..]) == Ok((EntryAt(s, i), s[EntrySize * (i + 1)..]))
  {
    var rest := s[EntrySize * i..];
    if |s| >= EntrySize * (i + 1) {
      var e := DecodeEntry(rest).value;
      assert rest == EncodeEntry(e.0) + e.1;
      assert e.1 == s[EntrySize * (i + 1)..];
    }
  }

  lemma PointLoopStep(s: seq<u8>, version: F32, i: nat, n: nat)
    requires i < n && PointEntrySize(version) * i <= |s|
    ensures var size := PointEntrySize(version);
      |s| < size * (i + 1) ==>
        DecodePointEntry(s[size * i..], version).Err? && DecodePointEntries(n, version, s) == Err(UnexpectedEof)
    ensures var size := PointEntrySize(version);
      |s| >= size * (i + 1) ==>
        DecodePointEntry(s[size * i..], version) == Ok((PointEntryAt(s, version, i), s[size * (i + 1)..]))
  {
    var size := PointEntrySize(version);
    Stride(size, i, n);
    var rest := s[size * i..];
    if |s| >= size * (i + 1) {
      var p := DecodePointEntry(rest, version).value;
      assert rest == EncodePointEntry(p.0, version) + p.1;
      assert p.1 == s[size * (i + 1)..];
    }
  }

  /** The loop `for _ in 0..num_conditions`: reads entries one at a time. */
  method ReadEntries(n: i32, input: seq<u8>) returns (r: Result<(seq<VictoryEntry>, seq<u8>)>)
    ensures r == DecodeEntries(Count(n), input)
  {
    var entries: seq<VictoryEntry> := [];
    var rest := input;
    var i := 0;
    while i < n
      invariant 0 <= i <= Count(n)
      invariant DecodeEntries(i, input) == Ok((entries, rest))
    {
      EntryLoopStep(input, i, Count(n));
      var e := DecodeEntry(rest);
      if e.Err? {
        return Err(e.error);
      }
      EntriesSnoc(i, input);
      entries := entries + [e.value.0];
      rest := e.value.1;
      i := i + 1;
    }
    assert i == Count(n);
    return Ok((entries, rest));
  }

  /** The loop `for _ in 0..num_point_entries`: reads point entries one at
      a time, each at the record's version. */
  method ReadPointEntries(n: i32, version: F32, input: seq<u8>) returns (r: Result<(seq<VictoryPointEntry>, seq<u8>)>)
    ensures r == DecodePointEntries(Count(n), version, input)
  {
    var pointEntries: seq<VictoryPointEntry> := [];
    var rest := input;
    var i := 0;
    while i < n
      invariant 0 <= i <= Count(n)
      invariant DecodePointEntries(i, version, input) == Ok((pointEntries, rest))
    {
      PointLoopStep(input, version, i, Count(n));
      var p := DecodePointEntry(rest, version);
      if p.Err? {
        return Err(p.error);
      }
      PointEntriesSnoc(i, version, input);
      pointEntries := pointEntries + [p.value.0];
      rest := p.value.1;
      i := i + 1;
    }
    assert i == Count(n);
    return Ok((pointEntries, rest));
  }

  /** `VictoryConditions::read_from`, field by field. */
  method ReadVictoryConditions(input: seq<u8>, hasVersion: bool) returns (r: Result<(VictoryConditions, seq<u8>)>)
    ensures r == DecodeConditions(input, hasVersion)
  {
    var rest := input;
    var version := Zero;
    if hasVersion {
      var v := ReadF32(rest);
      if v.Err? {
        return Err(v.error);
      }
      version, rest := v.value.0, v.value.1;
    }
    assert DecodeConditions(input, hasVersion) == DecodeBody(rest, version);

    ghost var body := rest;
    var n := ReadI32(rest);
    if n.Err? {
      return Err(n.error);
    }
    var b := ReadByte(n.value.1);
    if b.Err? {
      return Err(b.error);
    }
    var victory := StateOfCode(b.value.0);
    if victory.Err? {
      return Err(victory.error);
    }
    var es := ReadEntries(n.value.0, b.value.1);
    if es.Err? {
      return Err(es.error);
    }
    var entries := es.value.0;
    rest := es.value.1;
    ghost var head := VictoryConditions(version, victory.value, 0, 0, 0, entries, []);
    assert DecodeBody(body, version) == DecodePointSection(rest, head);

    var totalPoints: i32 := 0;
    var pointEntries: seq<VictoryPointEntry> := [];
    var startingPoints: i32 := 0;
    var startingGroup: i32 := 0;
    if AtLeast1(version) {
      var t := ReadI32(rest);
      if t.Err? {
        return Err(t.error);
      }
      totalPoints := t.value.0;
      var m := ReadI32(t.value.1);
      if m.Err? {
        return Err(m.error);
      }
      rest := m.value.1;
      ghost var startingAt := rest;
      if AtLeast2(version) {
        var a := ReadI32(rest);
        if a.Err? {
          return Err(a.error);
        }
        var g := ReadI32(a.value.1);
        if g.Err? {
          return Err(g.error);
        }
        startingPoints, startingGroup, rest := a.value.0, g.value.0, g.value.1;
      }
      assert DecodeStarting(startingAt, version) == Ok(((startingPoints, startingGroup), rest));
      var ps := ReadPointEntries(m.value.0, version, rest);
      if ps.Err? {
        return Err(ps.error);
      }
      pointEntries, rest := ps.value.0, ps.value.1;
    }
    r := Ok((VictoryConditions(version, victory.value, totalPoints, startingPoints, startingGroup,
                               entries, pointEntries), rest));
  }

  /** The loop `for entry in &self.entries`. */
  method WriteEntries(es: seq<VictoryEntry>) returns (out: seq<u8>)
    ensures out == EncodeEntries(es)
  {
    out := [];
    var i := 0;
    while i < |es|
      invariant 0 <= i <= |es|
      invariant out == EncodeEntries(es[..i])
    {
      EncodeEntriesAppend(es[..i], es[i]);
      assert es[..i + 1] == es[..i] + [es[i]];
      out := out + EncodeEntry(es[i]);
      i := i + 1;
    }
    assert es[..i] == es;
  }

  /** The loop `for entry in &self.point_entries`, every entry at `version`. */
  method WritePointEntries(ps: seq<VictoryPointEntry>, version: F32) returns (out: seq<u8>)
    ensures out == EncodePointEntries(ps, version)
  {
    out := [];
    var i := 0;
    while i < |ps|
      invariant 0 <= i <= |ps|
      invariant out == EncodePointEntries(ps[..i], version)
    {
      EncodePointEntriesAppend(ps[..i], ps[i], version);
      assert ps[..i + 1] == ps[..i] + [ps[i]];
      out := out + EncodePointEntry(ps[i], version);
      i := i + 1;
    }
    assert ps[..i] == ps;
  }


  /** `VictoryConditions::write_to`, field by field. */
  method WriteVictoryConditions(c: VictoryConditions, version: Option<F32>) returns (out: seq<u8>)
    ensures out == EncodeConditions(c, version)
  {
    out := [];
    if version.Some? {
      out := out + LeBytes(version.value.bits);
      assert out == LeBytes(version.value.bits);
    }
    ghost var prefix := out;
    var v := EffectiveVersion(version);

    out := out + PutI32(WrapI32(|c.entries|));
    out := out + [StateCode(c.victory)];
    var es := WriteEntries(c.entries);
    out := out + es;
    assert out == prefix + EncodeHead(c) by {
      Assoc(prefix, PutI32(WrapI32(|c.entries|)), [StateCode(c.victory)]);
      Assoc(prefix, PutI32(WrapI32(|c.entries|)) + [StateCode(c.victory)], es);
    }
    ghost var head := out;

    if AtLeast1(v) {
      out := out + PutI32(c.totalPoints);
      out := out + PutI32(WrapI32(|c.pointEntries|));
      ghost var counts := PutI32(c.totalPoints) + PutI32(WrapI32(|c.pointEntries|));
      assert out == head + counts by {
        Assoc(head, PutI32(c.totalPoints), PutI32(WrapI32(|c.pointEntries|)));
      }
      if AtLeast2(v) {
        out := out + PutI32(c.startingPoints);
        out := out + PutI32(c.startingGroup);
        assert out == head + counts + EncodeStarting(c, v) by {
          Assoc(head + counts, PutI32(c.startingPoints), PutI32(c.startingGroup));
        }
      } else {
        assert out == head + counts + EncodeStarting(c, v);
      }
      var ps := WritePointEntries(c.pointEntries, v);
      out := out + ps;
      assert out == head + EncodePointSection(c, v) by {
        Assoc(head, counts, EncodeStarting(c, v));
        Assoc(head, counts + EncodeStarting(c, v), ps);
      }
    } else {
      assert out == head + EncodePointSection(c, v);
    }
    assert out == prefix + EncodeBody(c, v) by {
      Assoc(prefix, EncodeHead(c), EncodePointSection(c, v));
    }
  }
}
