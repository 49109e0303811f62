/** The byte layer under the victory codecs: little-endian 8- and 32-bit
    fields read from the front of a byte sequence and written as bytes.
    A read that runs past the end of the input fails with UnexpectedEof,
    which is the only failure of the underlying stream that the model keeps. */
module Wire {

  type u8 = x: int | 0 <= x < 0x100
  type i8 = x: int | -0x80 <= x < 0x80
  type u32 = x: int | 0 <= x < 0x1_0000_0000
  type i32 = x: int | -0x8000_0000 <= x < 0x8000_0000

  const MaxI32: int := 0x7FFF_FFFF

  /** An IEEE-754 single-precision value, kept as its 32-bit pattern.
      The codec copies floats without doing arithmetic on them. */
  datatype F32 = F32(bits: u32)

  /** 0.0 */
  const Zero: F32 := F32(0)
  /** f32::MIN, the most negative finite single-precision value. */
  const MinF32: F32 := F32(0xFF7F_FFFF)

  datatype Option<T> = None | Some(value: T)

  datatype Error =
    | UnexpectedEof                  // the stream ended inside a field
    | InvalidVictoryState(code: u8)  // a victory-state byte outside 0..3

  datatype Result<T> = Ok(value: T) | Err(error: Error) {
    predicate IsFailure() { Err? }
    function PropagateFailure<U>(): Result<U> requires Err? { Err(error) }
    function Extract(): T requires Ok? { value }
  }

  /** Two's-complement view of a signed 32-bit value. */
  function I32Bits(x: i32): u32 { if x < 0 then x + 0x1_0000_0000 else x }
  function I32OfBits(b: u32): i32 { if b <= MaxI32 then b else b - 0x1_0000_0000 }

  /** Two's-complement view of a signed byte. */
  function I8Bits(x: i8): u8 { if x < 0 then x + 0x100 else x }
  function I8OfBits(b: u8): i8 { if b < 0x80 then b else b - 0x100 }

  /** `n as i32` for a non-negative length: keeps the low 32 bits and
      reinterprets them as signed. */
  function WrapI32(n: nat): (r: i32)
    ensures n <= MaxI32 ==> r == n
    ensures (r - n) % 0x1_0000_0000 == 0
  {
    I32OfBits(n % 0x1_0000_0000)
  }

  /** The four bytes of a 32-bit word, least significant first. */
  function LeBytes(x: u32): (b: seq<u8>)
    ensures |b| == 4
  {
    [x % 0x100, x / 0x100 % 0x100, x / 0x100 / 0x100 % 0x100, x / 0x100 / 0x100 / 0x100]
  }

  /** The 32-bit word whose little-endian bytes are `b`. */
  function FromLe(b: seq<u8>): u32
    requires |b| == 4
  {
    b[0] as int + 0x100 * (b[1] as int + 0x100 * (b[2] as int + 0x100 * (b[3] as int)))
  }

  lemma Split256(q: nat, r: u8)
    ensures (q * 0x100 + r) / 0x100 == q && (q * 0x100 + r) % 0x100 == r
  {
  }

  lemma LeRoundTrip(x: u32)
    ensures FromLe(LeBytes(x)) == x
  {
    Split256(x / 0x100, x % 0x100);
    Split256(x / 0x100 / 0x100, x / 0x100 % 0x100);
    Split256(x / 0x100 / 0x100 / 0x100, x / 0x100 / 0x100 % 0x100);
  }

  lemma LeCanonical(b: seq<u8>)
    requires |b| == 4
    ensures LeBytes(FromLe(b)) == b
  {
    var h2: nat := b[2] as int + 0x100 * (b[3] as int);
    var h1: nat := b[1] as int + 0x100 * h2;
    Split256(b[3], b[2]);
    Split256(h2, b[1]);
    Split256(h1, b[0]);
  }

  // ---------------------------------------------------------------------
  // Primitive reads (the `read_u8` / `read_u32::<LE>` of the stream)

  function ReadByte(s: seq<u8>): (r: Result<(u8, seq<u8>)>)
    ensures r.Ok? <==> |s| >= 1
    ensures r.Ok? ==> [r.value.0] + r.value.1 == s
    ensures r.Err? ==> r.error == UnexpectedEof
  {
    if |s| < 1 then Err(UnexpectedEof) else Ok((s[0], s[1..]))
  }

  function ReadWord(s: seq<u8>): (r: Result<(u32, seq<u8>)>)
    ensures r.Ok? <==> |s| >= 4
    ensures r.Ok? ==> LeBytes(r.value.0) + r.value.1 == s
    ensures r.Err? ==> r.error == UnexpectedEof
  {
    if |s| < 4 then Err(UnexpectedEof)
    else
      LeCanonical(s[..4]);
      Ok((FromLe(s[..4]), s[4..]))
  }

  function ReadI32(s: seq<u8>): (r: Result<(i32, seq<u8>)>)
    ensures r.Ok? <==> |s| >= 4
    ensures r.Ok? ==> PutI32(r.value.0) + r.value.1 == s
  {
    var w :- ReadWord(s);
    Ok((I32OfBits(w.0), w.1))
  }

  function ReadF32(s: seq<u8>): (r: Result<(F32, seq<u8>)>)
    ensures r.Ok? <==> |s| >= 4
    ensures r.Ok? ==> LeBytes(r.value.0.bits) + r.value.1 == s
  {
    var w :- ReadWord(s);
    Ok((F32(w.0), w.1))
  }

  /** `write_i32::<LE>` */
  function PutI32(x: i32): (b: seq<u8>)
    ensures |b| == 4
  {
    LeBytes(I32Bits(x))
  }

  lemma ReadBytePut(b: u8, rest: seq<u8>)
    ensures ReadByte([b] + rest) == Ok((b, rest))
  {
    assert ([b] + rest)[1..] == rest;
  }

  lemma ReadWordPut(x: u32, rest: seq<u8>)
    ensures ReadWord(LeBytes(x) + rest) == Ok((x, rest))
  {
    var s := LeBytes(x) + rest;
    assert s[..4] == LeBytes(x) && s[4..] == rest;
    LeRoundTrip(x);
  }

  lemma ReadI32Put(x: i32, rest: seq<u8>)
    ensures ReadI32(PutI32(x) + rest) == Ok((x, rest))
  {
    ReadWordPut(I32Bits(x), rest);
  }

  lemma ReadF32Put(x: F32, rest: seq<u8>)
    ensures ReadF32(LeBytes(x.bits) + rest) == Ok((x, rest))
  {
    ReadWordPut(x.bits, rest);
  }

  // ---------------------------------------------------------------------
  // Fixed record layouts: a record is a sequence of 1- and 4-byte fields
  // read and written one after the other with no padding.

  datatype Width = W8 | W32
  datatype Field = Byte(b: u8) | Word(w: u32)

  function ByteCount(w: Width): nat { match w case W8 => 1 case W32 => 4 }

  function WidthOf(f: Field): Width { match f case Byte(_) => W8 case Word(_) => W32 }

  /** The number of bytes a layout occupies on the wire. */
  function Size(layout: seq<Width>): nat
  {
    if layout == [] then 0 else ByteCount(layout[0]) + Size(layout[1..])
  }

  /** `n` fields of width `w`. */
  function Repeat(w: Width, n: nat): (layout: seq<Width>)
    ensures |layout| == n
  {
    seq(n, _ => w)
  }

  lemma {:induction false} RepeatSize(w: Width, n: nat)
    ensures Size(Repeat(w, n)) == ByteCount(w) * n
  {
    if n > 0 {
      assert Repeat(w, n)[1..] == Repeat(w, n - 1);
      RepeatSize(w, n - 1);
    }
  }

  lemma {:induction false} SizeAppend(a: seq<Width>, b: seq<Width>)
    ensures Size(a + b) == Size(a) + Size(b)
  {
    if a != [] {
      assert (a + b)[1..] == a[1..] + b;
      SizeAppend(a[1..], b);
    } else {
      assert a + b == b;
    }
  }

  /** `fs` has exactly the shape `layout` describes. */
  predicate Fits(fs: seq<Field>, layout: seq<Width>)
  {
    |fs| == |layout| && forall i :: 0 <= i < |fs| ==> WidthOf(fs[i]) == layout[i]
  }

  function Put(f: Field): (r: seq<u8>)
    ensures |r| == ByteCount(WidthOf(f))
  {
    match f
    case Byte(b) => [b]
    case Word(w) => LeBytes(w)
  }

  /** The bytes of a record's fields, in order. */
  function Serialize(fs: seq<Field>): seq<u8>
  {
    if fs == [] then [] else Put(fs[0]) + Serialize(fs[1..])
  }

  function ReadField(w: Width, s: seq<u8>): (r: Result<(Field, seq<u8>)>)
    ensures r.Ok? <==> |s| >= ByteCount(w)
    ensures r.Ok? ==> WidthOf(r.value.0) == w && Put(r.value.0) + r.value.1 == s
    ensures r.Err? ==> r.error == UnexpectedEof
  {
    match w
    case W8 => var p :- ReadByte(s); Ok((Byte(p.0), p.1))
    case W32 => var p :- ReadWord(s); Ok((Word(p.0), p.1))
  }

  /** Reads the fields of `layout` one after the other. It fails only on a
      short read, and then with UnexpectedEof. */
  function Parse(layout: seq<Width>, s: seq<u8>): (r: Result<(seq<Field>, seq<u8>)>)
    ensures r.Ok? <==> |s| >= Size(layout)
    ensures r.Ok? ==> Fits(r.value.0, layout) && r.value.1 == s[Size(layout)..]
    ensures r.Err? ==> r.error == UnexpectedEof
  {
    if layout == [] then Ok(([], s))
    else
      var f :- ReadField(layout[0], s);
      var fs :- Parse(layout[1..], f.1);
      Ok(([f.0] + fs.0, fs.1))
  }

  /** What Parse returns re-serializes to exactly the bytes it consumed. */
  lemma {:induction false} ParseConsumed(layout: seq<Width>, s: seq<u8>)
    requires Parse(layout, s).Ok?
    ensures Serialize(Parse(layout, s).value.0) + Parse(layout, s).value.1 == s
  {
    if layout != [] {
      var f := ReadField(layout[0], s).value;
      ParseConsumed(layout[1..], f.1);
      var fs := Parse(layout[1..], f.1).value.0;
      assert ([f.0] + fs)[1..] == fs;
    }
  }

  lemma {:induction false} SerializeSize(fs: seq<Field>, layout: seq<Width>)
    requires Fits(fs, layout)
    ensures |Serialize(fs)| == Size(layout)
  {
    if fs != [] {
      SerializeSize(fs[1..], layout[1..]);
    }
  }

  /** Reading a layout back from the bytes of fields that fit it gives those
      fields and leaves whatever followed untouched. */
  lemma {:induction false} ParseSerialize(layout: seq<Width>, fs: seq<Field>, rest: seq<u8>)
    requires Fits(fs, layout)
    ensures Parse(layout, Serialize(fs) + rest) == Ok((fs, rest))
  {
    if fs != [] {
      var tail := Serialize(fs[1..]) + rest;
      var s := Serialize(fs) + rest;
      assert s == Put(fs[0]) + tail;
      assert ReadField(layout[0], s) == Ok((fs[0], tail)) by {
        match fs[0] {
          case Byte(b) => ReadBytePut(b, tail);
          case Word(w) => ReadWordPut(w, tail);
        }
      }
      ParseSerialize(layout[1..], fs[1..], rest);
      assert [fs[0]] + fs[1..] == fs;
    } else {
      assert Serialize(fs) + rest == rest;
    }
  }

  /** Fields that fit a layout are the fields of their own bytes. */
  lemma FieldsOfBytes(layout: seq<Width>, fs: seq<Field>)
    requires Fits(fs, layout)
    ensures Parse(layout, Serialize(fs)) == Ok((fs, []))
  {
    ParseSerialize(layout, fs, []);
    assert Serialize(fs) + [] == Serialize(fs);
  }

  /** The word at index `k` of a byte sequence cut into 4-byte words. */
  function WordAt(s: seq<u8>, k: nat): u32
    requires 4 * k + 4 <= |s|
  {
    FromLe(s[4 * k .. 4 * k + 4])
  }

  lemma WordAtShift(s: seq<u8>, k: nat)
    requires 4 * k + 8 <= |s|
    ensures WordAt(s[4..], k) == WordAt(s, k + 1)
  {
    assert s[4..][4 * k .. 4 * k + 4] == s[4 * (k + 1) .. 4 * (k + 1) + 4];
  }

  /** Dropping `j` whole words renumbers the rest from 0. */
  lemma WordAtDrop(s: seq<u8>, j: nat, k: nat)
    requires 4 * (j + k) + 4 <= |s|
    ensures WordAt(s[4 * j..], k) == WordAt(s, j + k)
  {
    assert s[4 * j..][4 * k .. 4 * k + 4] == s[4 * (j + k) .. 4 * (j + k) + 4];
  }

  /** A word of a suffix of a suffix is a word of the suffix that starts
      at the sum of the two offsets. */
  lemma WordAtSuffix(s: seq<u8>, o: nat, p: nat, k: nat)
    requires o + p + 4 * k + 4 <= |s|
    ensures WordAt(s[o..][p..], k) == WordAt(s[o + p..], k)
  {
    assert s[o..][p..] == s[o + p..];
  }

  /** A signed word read from the front of the input is its first word. */
  lemma ReadI32Word(s: seq<u8>)
    requires |s| >= 4
    ensures ReadI32(s) == Ok((I32OfBits(WordAt(s, 0)), s[4..]))
  {
  }

  /** A word lies within any prefix that covers it. */
  lemma WordAtPrefix(s: seq<u8>, t: seq<u8>, n: nat, k: nat)
    requires 4 * k + 4 <= n <= |s| && n <= |t| && s[..n] == t[..n]
    ensures WordAt(s, k) == WordAt(t, k)
  {
    assert s[4 * k .. 4 * k + 4] == s[..n][4 * k .. 4 * k + 4];
    assert t[4 * k .. 4 * k + 4] == t[..n][4 * k .. 4 * k + 4];
  }

  /** The first `n` words of `s`, as fields. */
  function Words(s: seq<u8>, n: nat): (fs: seq<Field>)
    requires 4 * n <= |s|
  {
    seq(n, k requires 0 <= k < n => Word(WordAt(s, k)))
  }

  predicate AllWords(layout: seq<Width>)
  {
    forall i :: 0 <= i < |layout| ==> layout[i] == W32
  }

  lemma {:induction false} WordsSize(layout: seq<Width>)
    requires AllWords(layout)
    ensures Size(layout) == 4 * |layout|
  {
    if layout != [] {
      WordsSize(layout[1..]);
    }
  }

  /** The first word, then the words after it. */
  lemma WordsCons(s: seq<u8>, n: nat)
    requires 0 < n && 4 * n <= |s|
    ensures Words(s, n) == [Word(FromLe(s[..4]))] + Words(s[4..], n - 1)
  {
    var ws := Words(s, n);
    var vs := Words(s[4..], n - 1);
    forall k | 0 <= k < n
      ensures ws[k] == ([Word(FromLe(s[..4]))] + vs)[k]
    {
      if k == 0 {
        assert s[0..4] == s[..4];
      } else {
        WordAtShift(s, k - 1);
      }
    }
  }

  /** A layout that starts with a word reads that word, then the rest. */
  lemma ParseWordStep(layout: seq<Width>, s: seq<u8>)
    requires layout != [] && layout[0] == W32 && 4 <= |s|
    requires Parse(layout[1..], s[4..]).Ok?
    ensures var p := Parse(layout[1..], s[4..]).value;
      Parse(layout, s) == Ok(([Word(FromLe(s[..4]))] + p.0, p.1))
  {
    assert ReadField(W32, s) == Ok((Word(FromLe(s[..4])), s[4..]));
  }

  /** A layout made only of words reads the input word by word. */
  lemma {:induction false} ParseWords(layout: seq<Width>, s: seq<u8>)
    requires AllWords(layout) && 4 * |layout| <= |s|
    ensures Parse(layout, s) == Ok((Words(s, |layout|), s[4 * |layout|..]))
  {
    if layout != [] {
      var n := |layout|;
      var t := s[4..];
      assert Parse(layout[1..], t) == Ok((Words(t, n - 1), s[4 * n..])) by {
        ParseWords(layout[1..], t);
        assert t[4 * (n - 1)..] == s[4 * n..];
      }
      ParseWordStep(layout, s);
      WordsCons(s, n);
    } else {
      assert Words(s, 0) == [] && s[0..] == s;
    }
  }
}
