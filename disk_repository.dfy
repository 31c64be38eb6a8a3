/**
 * The in-memory ring of DiskRepository<UseDisk, Args...>
 * (diskrepository/diskrepository.h).
 *
 * A record is the template's field list `Args...`; `push` serialises one
 * record into a circular byte buffer and `pull` deserialises the oldest one.
 * An integral field is copied as its `sizeof(T)` object bytes (little-endian),
 * a string field as a `size_t` length prefix followed by its bytes.  The
 * source maps the same file twice, back to back, so that a record crossing
 * the end of the buffer is still one contiguous copy; here the buffer is an
 * array of `bufferCapacity` bytes indexed modulo its length, which is what
 * the double mapping makes the contiguous copy mean.
 */
module DiskRepo {
  import opened Results
  import opened ModArith

  newtype byte = x: int | 0 <= x < 256

  /** sizeof(size_t), the width of a string's length prefix. */
  const SizeTWidth: nat := 8

  function Pow256(w: nat): (r: nat)
    ensures r >= 1
  {
    if w == 0 then 1 else 256 * Pow256(w - 1)
  }

  /** The `w` object bytes of an unsigned value on a little-endian machine. */
  function LittleEndian(n: nat, w: nat): (r: seq<byte>)
    ensures |r| == w
  {
    if w == 0 then [] else [(n % 256) as byte] + LittleEndian(n / 256, w - 1)
  }

  /** The value whose little-endian object bytes are `bs`. */
  function FromLittleEndian(bs: seq<byte>): nat
  {
    if bs == [] then 0 else bs[0] as nat + 256 * FromLittleEndian(bs[1..])
  }

  /** Reading back the bytes of a value that fits in `w` bytes gives the value. */
  lemma {:induction false} FromLittleEndianInverse(n: nat, w: nat)
    requires n < Pow256(w)
    ensures FromLittleEndian(LittleEndian(n, w)) == n
  {
    if w > 0 {
      FromLittleEndianInverse(n / 256, w - 1);
      assert LittleEndian(n, w)[1..] == LittleEndian(n / 256, w - 1);
    }
  }

  /** Any `w` bytes are the object bytes of exactly one value below 256^w. */
  lemma {:induction false} LittleEndianInverse(bs: seq<byte>)
    ensures FromLittleEndian(bs) < Pow256(|bs|)
    ensures LittleEndian(FromLittleEndian(bs), |bs|) == bs
  {
    if bs != [] {
      LittleEndianInverse(bs[1..]);
      var n := FromLittleEndian(bs);
      var tail := FromLittleEndian(bs[1..]);
      ModUnique(n, 256, tail, bs[0] as nat);
      assert LittleEndian(n, |bs|) == [(n % 256) as byte] + LittleEndian(tail, |bs| - 1);
      assert [bs[0]] + bs[1..] == bs;
    }
  }

  /** The kind of one field of the record type `Args...`. */
  datatype FieldKind = Integral(width: nat) | Text

  /** The value of one field: an integral's unsigned object value, or a string's bytes. */
  datatype Value = Int(width: nat, n: nat) | Str(text: seq<byte>)

  /** sizeof of an integral type. */
  predicate IntegralWidth(w: nat)
  {
    w == 1 || w == 2 || w == 4 || w == 8
  }

  predicate KindOk(k: FieldKind)
  {
    k.Integral? ==> IntegralWidth(k.width)
  }

  /** A value of the field's C++ type. */
  predicate Conforms(v: Value, k: FieldKind)
  {
    match k
    case Integral(w) => v.Int? && v.width == w && IntegralWidth(w) && v.n < Pow256(w)
    case Text => v.Str? && |v.text| < Pow256(SizeTWidth)
  }

  predicate ConformsAll(vs: seq<Value>, ks: seq<FieldKind>)
  {
    |vs| == |ks| && forall i :: 0 <= i < |vs| ==> Conforms(vs[i], ks[i])
  }

  /** The bytes pushImpl writes for one field. */
  function Encode(v: Value): seq<byte>
  {
    match v
    case Int(w, n) => LittleEndian(n, w)
    case Str(t) => LittleEndian(|t|, SizeTWidth) + t
  }

  /** How many bytes pushImpl writes for one field. */
  function EncodedLength(v: Value): (len: nat)
    ensures len == |Encode(v)|
  {
    match v
    case Int(w, _) => w
    case Str(t) => SizeTWidth + |t|
  }

  /** The bytes of a whole record, field after field. */
  function EncodeAll(vs: seq<Value>): seq<byte>
    decreases |vs|
  {
    if vs == [] then [] else Encode(vs[0]) + EncodeAll(vs[1..])
  }

  /** What pullImpl reads for one field from the front of `bytes`, and what is left. */
  function DecodeOne(k: FieldKind, bytes: seq<byte>): Option<(Value, seq<byte>)>
  {
    match k
    case Integral(w) =>
      if |bytes| < w then None else Some((Int(w, FromLittleEndian(bytes[..w])), bytes[w..]))
    case Text =>
      if |bytes| < SizeTWidth then None
      else
        var len := FromLittleEndian(bytes[..SizeTWidth]);
        if |bytes| - SizeTWidth < len then None
        else Some((Str(bytes[SizeTWidth..SizeTWidth + len]), bytes[SizeTWidth + len..]))
  }

  /** Reads a whole record field after field; None as soon as one field is missing. */
  function DecodeAll(ks: seq<FieldKind>, bytes: seq<byte>): Option<(seq<Value>, seq<byte>)>
    decreases |ks|
  {
    if ks == [] then Some(([], bytes))
    else match DecodeOne(ks[0], bytes)
      case None => None
      case Some((v, rest)) =>
        match DecodeAll(ks[1..], rest)
        case None => None
        case Some((vs, rest')) => Some(([v] + vs, rest'))
  }

  /** A field pulled from its own pushed bytes comes back unchanged, whatever follows it. */
  lemma DecodeOneEncode(v: Value, k: FieldKind, rest: seq<byte>)
    requires Conforms(v, k)
    ensures DecodeOne(k, Encode(v) + rest) == Some((v, rest))
  {
    var bytes := Encode(v) + rest;
    match k
    case Integral(w) =>
      assert bytes[..w] == LittleEndian(v.n, w) && bytes[w..] == rest;
      FromLittleEndianInverse(v.n, w);
    case Text =>
      var t := v.text;
      assert bytes[..SizeTWidth] == LittleEndian(|t|, SizeTWidth);
      FromLittleEndianInverse(|t|, SizeTWidth);
      assert bytes[SizeTWidth..SizeTWidth + |t|] == t;
      assert bytes[SizeTWidth + |t|..] == rest;
  }

  /** Whatever a field pull accepts is the encoding of a value of that field's type. */
  lemma DecodeOneSound(k: FieldKind, bytes: seq<byte>)
    requires KindOk(k) && DecodeOne(k, bytes).Some?
    ensures var (v, rest) := DecodeOne(k, bytes).value;
      Conforms(v, k) && Encode(v) + rest == bytes
  {
    match k
    case Integral(w) =>
      LittleEndianInverse(bytes[..w]);
      assert bytes[..w] + bytes[w..] == bytes;
    case Text =>
      var len := FromLittleEndian(bytes[..SizeTWidth]);
      LittleEndianInverse(bytes[..SizeTWidth]);
      assert bytes[..SizeTWidth] + bytes[SizeTWidth..SizeTWidth + len] + bytes[SizeTWidth + len..] == bytes;
  }

  /**
   * FIFO round trip: the record pulled from the front of the stored bytes
   * is the record pushed first, and the bytes after it are left in place.
   */
  lemma {:induction false} DecodeAllEncodeAll(ks: seq<FieldKind>, vs: seq<Value>, rest: seq<byte>)
    requires ConformsAll(vs, ks)
    ensures DecodeAll(ks, EncodeAll(vs) + rest) == Some((vs, rest))
    decreases |ks|
  {
    if ks != [] {
      var tail := EncodeAll(vs[1..]) + rest;
      assert EncodeAll(vs) + rest == Encode(vs[0]) + tail;
      DecodeOneEncode(vs[0], ks[0], tail);
      assert ConformsAll(vs[1..], ks[1..]);
      DecodeAllEncodeAll(ks[1..], vs[1..], rest);
      assert DecodeAll(ks[1..], tail) == Some((vs[1..], rest));
      assert [vs[0]] + vs[1..] == vs;
    } else {
      assert EncodeAll(vs) + rest == rest;
    }
  }

  /** Conversely, every record a pull accepts is the encoding of a well-typed record. */
  lemma {:induction false} DecodeAllSound(ks: seq<FieldKind>, bytes: seq<byte>)
    requires forall i :: 0 <= i < |ks| ==> KindOk(ks[i])
    requires DecodeAll(ks, bytes).Some?
    ensures var (vs, rest) := DecodeAll(ks, bytes).value;
      ConformsAll(vs, ks) && EncodeAll(vs) + rest == bytes
    decreases |ks|
  {
    if ks != [] {
      DecodeOneSound(ks[0], bytes);
      var (v, rest) := DecodeOne(ks[0], bytes).value;
      DecodeAllSound(ks[1..], rest);
      var (vs, rest') := DecodeAll(ks[1..], rest).value;
      assert ([v] + vs)[1..] == vs;
      assert Encode(v) + (EncodeAll(vs) + rest') == (Encode(v) + EncodeAll(vs)) + rest';
    }
  }

  lemma {:induction false} EncodeAllAppend(a: seq<Value>, b: seq<Value>)
    ensures EncodeAll(a + b) == EncodeAll(a) + EncodeAll(b)
    decreases |a|
  {
    if a != [] {
      assert (a + b)[0] == a[0] && (a + b)[1..] == a[1..] + b;
      EncodeAllAppend(a[1..], b);
      calc {
        EncodeAll(a + b);
        Encode(a[0]) + EncodeAll(a[1..] + b);
        Encode(a[0]) + (EncodeAll(a[1..]) + EncodeAll(b));
        (Encode(a[0]) + EncodeAll(a[1..])) + EncodeAll(b);
      }
    } else {
      assert a + b == b;
    }
  }

  /**
   * One pushImpl call on the local (offset, size) pair, as written: the
   * result and the new size.  A string whose prefix fits but whose bytes do
   * not fails with the prefix already counted.
   */
  function PushStep(cap: nat, v: Value, size: nat): (r: (bool, nat))
    ensures r.0 <==> size + EncodedLength(v) <= cap
    ensures r.0 ==> r.1 == size + EncodedLength(v)
    ensures size <= cap ==> r.1 <= cap
  {
    match v
    case Int(w, _) => if size + w > cap then (false, size) else (true, size + w)
    case Str(t) =>
      if size + SizeTWidth > cap then (false, size)
      else if size + SizeTWidth + |t| > cap then (false, size + SizeTWidth)
      else (true, size + SizeTWidth + |t|)
  }

  /**
   * push as written: the comma fold runs pushImpl for every field whatever
   * the earlier results, and `ok` is the last field's result.
   */
  function PushFoldAsWritten(cap: nat, args: seq<Value>, size: nat, ok: bool): (bool, nat)
    decreases |args|
  {
    if args == [] then (ok, size)
    else
      var (ok', size') := PushStep(cap, args[0], size);
      PushFoldAsWritten(cap, args[1..], size', ok')
  }

  /**
   * One pullImpl call as written, on the bytes stored after the local
   * offset: the result and how many bytes the local pair advanced.
   */
  function PullStep(k: FieldKind, window: seq<byte>): (r: (bool, nat))
    ensures r.0 <==> DecodeOne(k, window).Some?
    ensures r.1 <= |window|
    ensures r.0 ==> DecodeOne(k, window).value.1 == window[r.1..]
  {
    match k
    case Integral(w) => if |window| < w then (false, 0) else (true, w)
    case Text =>
      if |window| < SizeTWidth then (false, 0)
      else
        var len := FromLittleEndian(window[..SizeTWidth]);
        if |window| - SizeTWidth < len then (false, SizeTWidth) else (true, SizeTWidth + len)
  }

  /** pull as written: every pullImpl runs, `ok` is the last one's result. */
  function PullFoldAsWritten(ks: seq<FieldKind>, window: seq<byte>, ok: bool, consumed: nat): (bool, nat)
    requires consumed <= |window|
    decreases |ks|
  {
    if ks == [] then (ok, consumed)
    else
      var (ok', n) := PullStep(ks[0], window[consumed..]);
      PullFoldAsWritten(ks[1..], window, ok', consumed + n)
  }

  /**
   * The comma fold commits half a record.  In a 4096-byte ring holding
   * 4092 bytes, pushing (uint64, uint8) skips the uint64 that does not fit,
   * writes the uint8, and reports success with 1 of the record's 9 bytes
   * stored; a string too long for the room left commits its bare length
   * prefix.  Pulling (uint64, uint8) from a ring holding one byte consumes
   * that byte and reports success although the uint64 was never read.
   */
  lemma CommaFoldCommitsPartialRecords()
    ensures var rec := [Int(8, 0), Int(1, 0)];
      PushFoldAsWritten(4096, rec, 4092, false) == (true, 4093) && |EncodeAll(rec)| == 9
    ensures var rec := [Str(seq(4090, _ => 0)), Int(1, 0)];
      PushFoldAsWritten(4096, rec, 0, false) == (true, 9) && |EncodeAll(rec)| == 4099
    ensures PullFoldAsWritten([Integral(8), Integral(1)], [7], false, 0) == (true, 1)
      && DecodeAll([Integral(8), Integral(1)], [7]).None?
  {
    var rec := [Int(8, 0), Int(1, 0)];
    assert rec[1..] == [Int(1, 0)];
    assert EncodeAll(rec[1..]) == LittleEndian(0, 1);
    var rec2 := [Str(seq(4090, _ => 0)), Int(1, 0)];
    assert rec2[1..] == [Int(1, 0)];
    assert EncodeAll(rec2[1..]) == LittleEndian(0, 1);
    var w: seq<byte> := [7];
    assert w[0..] == w && w[1..] == [];
  }

  /** capacity rule of the constructor: one page more than the whole pages of `size`. */
  function CapacityFor(size: nat, pageSize: nat): nat
    requires pageSize >= 1
  {
    ((size / pageSize) + 1) * pageSize
  }

  /** The capacity is the least multiple of the page size strictly above the requested size. */
  lemma CapacityRule(size: nat, pageSize: nat)
    requires pageSize >= 1
    ensures CapacityFor(size, pageSize) % pageSize == 0
    ensures size < CapacityFor(size, pageSize) <= size + pageSize
  {
    var q, r := size / pageSize, size % pageSize;
    assert size == pageSize * q + r;
    assert CapacityFor(size, pageSize) == pageSize * q + pageSize;
    ModUnique(CapacityFor(size, pageSize), pageSize, q + 1, 0);
  }

  /**
   * `x % n` for the only arguments the ring ever reduces: an offset below
   * `n` advanced by at most `n` bytes.
   */
  function Wrap(x: nat, n: nat): (r: nat)
    requires x < 2 * n
  {
    if x < n then x else x - n
  }

  lemma WrapIsMod(x: nat, n: nat)
    requires x < 2 * n
    ensures Wrap(x, n) == x % n
  {
    if x < n {
      ModSmall(x, n);
    } else {
      ModUnique(x, n, 1, x - n);
    }
  }

  /**
   * The `len` bytes of the ring `a` from `start` on, wrapping at its end:
   * a contiguous slice of the ring mapped twice, back to back.
   */
  function Window(a: seq<byte>, start: nat, len: nat): (r: seq<byte>)
    requires start < |a| && len <= |a|
    ensures |r| == len
  {
    (a + a)[start..start + len]
  }

  /** How far position `j` of a ring of `n` bytes lies after position `from`. */
  function Distance(from: nat, j: nat, n: nat): nat
    requires from < n && j < n
  {
    if j >= from then j - from else j + n - from
  }

  /** The ring `a` after `bytes` are copied into it from `offset` on, wrapping at its end. */
  function WriteArc(a: seq<byte>, offset: nat, bytes: seq<byte>): (r: seq<byte>)
    requires offset < |a|
    ensures |r| == |a|
  {
    seq(|a|, j requires 0 <= j < |a| =>
      if Distance(offset, j, |a|) < |bytes| then bytes[Distance(offset, j, |a|)] else a[j])
  }

  lemma WriteArcStep(a: seq<byte>, offset: nat, bytes: seq<byte>, i: nat)
    requires offset < |a| && i < |bytes| <= |a|
    ensures WriteArc(a, offset, bytes[..i + 1]) == WriteArc(a, offset, bytes[..i])[Wrap(offset + i, |a|) := bytes[i]]
  {
    var n := |a|;
    var after := WriteArc(a, offset, bytes[..i + 1]);
    var stepped := WriteArc(a, offset, bytes[..i])[Wrap(offset + i, n) := bytes[i]];
    forall j | 0 <= j < n
      ensures after[j] == stepped[j]
    {
    }
  }

  /**
   * Copying `bytes` at the write position of a ring holding `s` bytes from
   * `r` on appends them to what it holds, when they fit.
   */
  lemma WriteExtendsWindow(a: seq<byte>, r: nat, s: nat, bytes: seq<byte>)
    requires r < |a| && s + |bytes| <= |a|
    ensures Window(WriteArc(a, Wrap(r + s, |a|), bytes), r, s + |bytes|) == Window(a, r, s) + bytes
    ensures Window(WriteArc(a, Wrap(r + s, |a|), bytes), r, s) == Window(a, r, s)
  {
    var n := |a|;
    var b := WriteArc(a, Wrap(r + s, n), bytes);
    var grown := Window(b, r, s + |bytes|);
    var expected := Window(a, r, s) + bytes;
    forall k | 0 <= k < s + |bytes|
      ensures grown[k] == expected[k]
    {
      var j, w := Wrap(r + k, n), Wrap(r + s, n);
      assert grown[k] == b[j];
      if k < s {
        assert Distance(w, j, n) == k + n - s;
        assert expected[k] == a[j];
      } else {
        assert Distance(w, j, n) == k - s;
      }
    }
    assert grown == expected;
    assert Window(b, r, s) == grown[..s];
  }

  /**
   * A length prefix and then the string's bytes, appended one after the
   * other, append the string's encoding; a prefix whose bytes did not follow
   * leaves what was held before it unchanged all the same.
   */
  lemma StringPushed(a0: seq<byte>, a1: seq<byte>, a2: seq<byte>, r: nat, s: nat, prefix: seq<byte>, text: seq<byte>, ok: bool)
    requires |a1| == |a0| && |a2| == |a0| && r < |a0| && s + |prefix| <= |a0|
    requires Window(a1, r, s) == Window(a0, r, s) && Window(a1, r, s + |prefix|) == Window(a0, r, s) + prefix
    requires Window(a2, r, s + |prefix|) == Window(a1, r, s + |prefix|)
    requires ok ==> s + |prefix| + |text| <= |a0| && Window(a2, r, s + |prefix| + |text|) == Window(a1, r, s + |prefix|) + text
    ensures Window(a2, r, s) == Window(a0, r, s)
    ensures ok ==> Window(a2, r, s + |prefix| + |text|) == Window(a0, r, s) + (prefix + text)
  {
    WindowPrefix(a1, r, s + |prefix|, s);
    WindowPrefix(a2, r, s + |prefix|, s);
    AppendAssoc(Window(a0, r, s), prefix, text);
  }

  /** Reading a string is reading its length prefix, then that many bytes from what follows. */
  lemma TextPulled(w: seq<byte>, w1: seq<byte>, ok: bool, text: seq<byte>, w2: seq<byte>)
    requires SizeTWidth <= |w|
    requires DecodeOne(Integral(SizeTWidth), w) == Some((Int(SizeTWidth, FromLittleEndian(w[..SizeTWidth])), w1))
    requires ok <==> FromLittleEndian(w[..SizeTWidth]) <= |w1|
    requires ok ==> text == w1[..FromLittleEndian(w[..SizeTWidth])] && w2 == w1[FromLittleEndian(w[..SizeTWidth])..]
    ensures PullStep(Text, w) == (ok, if ok then SizeTWidth + |text| else SizeTWidth)
    ensures ok ==> DecodeOne(Text, w) == Some((Str(text), w2))
  {
    var len := FromLittleEndian(w[..SizeTWidth]);
    assert w1 == w[SizeTWidth..];
    if ok {
      assert text == w[SizeTWidth..SizeTWidth + len];
      assert w2 == w[SizeTWidth + len..];
    }
  }

  lemma AppendAssoc(x: seq<byte>, y: seq<byte>, z: seq<byte>)
    ensures (x + y) + z == x + (y + z)
  {
  }

  lemma WindowPrefix(a: seq<byte>, r: nat, s: nat, m: nat)
    requires r < |a| && m <= s <= |a|
    ensures Window(a, r, s)[..m] == Window(a, r, m)
  {
  }

  /** Consuming `len` stored bytes moves the read position on by `len`, wrapping. */
  lemma WindowAdvance(a: seq<byte>, r: nat, s: nat, len: nat)
    requires r < |a| && len <= s <= |a|
    ensures Window(a, Wrap(r + len, |a|), s - len) == Window(a, r, s)[len..]
  {
    var moved := Window(a, Wrap(r + len, |a|), s - len);
    var whole := Window(a, r, s);
    forall k | 0 <= k < s - len
      ensures moved[k] == whole[len + k]
    {
      assert Wrap(Wrap(r + len, |a|) + k, |a|) == Wrap(r + (len + k), |a|);
    }
    assert moved == whole[len..];
  }

  /** Prepends the fields already read to the outcome of reading the rest. */
  function Prepend(vs: seq<Value>, o: Option<(seq<Value>, seq<byte>)>): Option<(seq<Value>, seq<byte>)>
  {
    match o
    case None => None
    case Some((ws, rest)) => Some((vs + ws, rest))
  }

  lemma PrependNil(o: Option<(seq<Value>, seq<byte>)>)
    ensures Prepend([], o) == o
  {
    if o.Some? {
      assert [] + o.value.0 == o.value.0;
    }
  }

  /** Reading the next field of a record moves it from the bytes to the values read. */
  lemma ReadFieldStep(ks: seq<FieldKind>, i: nat, values: seq<Value>, stored: seq<byte>, w: seq<byte>, v: Value, rest: seq<byte>)
    requires i < |ks| && DecodeOne(ks[i], w) == Some((v, rest))
    requires DecodeAll(ks, stored) == Prepend(values, DecodeAll(ks[i..], w))
    ensures DecodeAll(ks, stored) == Prepend(values + [v], DecodeAll(ks[i + 1..], rest))
  {
    assert ks[i..][0] == ks[i] && ks[i..][1..] == ks[i + 1..];
    DecodeAllFirst(ks[i..], w);
    PrependAppend(values, [v], DecodeAll(ks[i + 1..], rest));
  }

  /** A field that cannot be read makes the whole record unreadable. */
  lemma ReadFieldFails(ks: seq<FieldKind>, i: nat, values: seq<Value>, stored: seq<byte>, w: seq<byte>)
    requires i < |ks| && DecodeOne(ks[i], w).None?
    requires DecodeAll(ks, stored) == Prepend(values, DecodeAll(ks[i..], w))
    ensures DecodeAll(ks, stored).None?
  {
    assert ks[i..][0] == ks[i];
    DecodeAllFirst(ks[i..], w);
  }

  lemma ReadFieldsDone(ks: seq<FieldKind>, values: seq<Value>, stored: seq<byte>, w: seq<byte>)
    requires DecodeAll(ks, stored) == Prepend(values, DecodeAll(ks[|ks|..], w))
    ensures DecodeAll(ks, stored) == Some((values, w))
  {
    assert ks[|ks|..] == [];
    assert values + [] == values;
  }

  lemma WrapAdd(x: nat, d: nat, n: nat)
    requires x < 2 * n && x + d < 2 * n && Wrap(x, n) + d < 2 * n
    ensures Wrap(Wrap(x, n) + d, n) == Wrap(x + d, n)
  {
  }

  lemma PrependAppend(a: seq<Value>, b: seq<Value>, o: Option<(seq<Value>, seq<byte>)>)
    ensures Prepend(a, Prepend(b, o)) == Prepend(a + b, o)
  {
    if o.Some? {
      assert a + (b + o.value.0) == (a + b) + o.value.0;
    }
  }

  /** Reading a record is reading its first field, then the rest from what that field left. */
  lemma DecodeAllFirst(ks: seq<FieldKind>, bytes: seq<byte>)
    requires ks != []
    ensures DecodeOne(ks[0], bytes).None? ==> DecodeAll(ks, bytes).None?
    ensures DecodeOne(ks[0], bytes).Some? ==>
      var (v, rest) := DecodeOne(ks[0], bytes).value;
      DecodeAll(ks, bytes) == Prepend([v], DecodeAll(ks[1..], rest))
  {
  }

  lemma {:induction false} EncodeAllSnoc(vs: seq<Value>, i: nat)
    requires i < |vs|
    ensures EncodeAll(vs[..i + 1]) == EncodeAll(vs[..i]) + Encode(vs[i])
    ensures |EncodeAll(vs)| >= |EncodeAll(vs[..i])| + |Encode(vs[i])|
  {
    assert vs[..i + 1] == vs[..i] + [vs[i]];
    EncodeAllAppend(vs[..i], [vs[i]]);
    assert [vs[i]][1..] == [];
    assert EncodeAll([vs[i]]) == Encode(vs[i]);
    assert vs == vs[..i + 1] + vs[i + 1..];
    EncodeAllAppend(vs[..i + 1], vs[i + 1..]);
  }

  /**
   * The ring: a capacity fixed at construction, the number of stored bytes,
   * the write and read offsets, and the mapped buffer (null until `open`).
   */
  class DiskRepository {
    const pageSize: nat
    const requestedSize: nat
    const bufferCapacity: nat
    const fields: seq<FieldKind>
    const useDisk: bool
    var bufferSize: nat
    var writeOffset: nat
    var readOffset: nat
    var buffer: array?<byte>
    var fileWriteOffset: nat

    /** The capacity rule; it is about constants only, so it holds from construction on. */
    ghost predicate Sized()
    {
      pageSize >= 1 && bufferCapacity == CapacityFor(requestedSize, pageSize)
    }

    ghost predicate Valid()
      reads this
    {
      && bufferCapacity > 0
      && (forall i :: 0 <= i < |fields| ==> KindOk(fields[i]))
      && bufferSize <= bufferCapacity
      && readOffset < bufferCapacity && writeOffset < bufferCapacity
      && writeOffset == Wrap(readOffset + bufferSize, bufferCapacity)
      && (buffer != null ==> buffer.Length == bufferCapacity)
    }

    /** The bytes stored, oldest first. */
    ghost function Contents(): seq<byte>
      requires Valid()
      reads this, buffer
    {
      if buffer == null then [] else Window(buffer[..], readOffset, bufferSize)
    }

    /** The constructor: no buffer yet, nothing stored. */
    constructor (size: nat, pageSize: nat, fields: seq<FieldKind>, useDisk: bool)
      requires pageSize >= 1
      requires forall i :: 0 <= i < |fields| ==> KindOk(fields[i])
      ensures Valid() && Sized() && buffer == null && Contents() == []
      ensures requestedSize == size && this.pageSize == pageSize
      ensures bufferSize == 0 && writeOffset == 0 && readOffset == 0 && fileWriteOffset == 0
      ensures this.fields == fields && this.useDisk == useDisk
    {
      this.pageSize := pageSize;
      requestedSize := size;
      bufferCapacity := ((size / pageSize) + 1) * pageSize;
      this.fields := fields;
      this.useDisk := useDisk;
      bufferSize, writeOffset, readOffset := 0, 0, 0;
      buffer := null;
      fileWriteOffset := 0;
      new;
      CapacityRule(size, pageSize);
    }

    /** capacity(): a whole number of pages, strictly more than was asked for. */
    function Capacity(): (c: nat)
      requires Sized()
      ensures c % pageSize == 0 && requestedSize < c <= requestedSize + pageSize
    {
      CapacityRule(requestedSize, pageSize);
      bufferCapacity
    }

    /**
     * open() when every system call succeeds: a fresh zero-filled mapping of
     * `bufferCapacity` bytes; with the disk backup, the write offset into the
     * backup file is that file's current length `backupLength`.
     */
    method Open(backupLength: nat)
      requires Valid()
      modifies this
      ensures Valid() && fresh(buffer) && buffer != null
      ensures forall i :: 0 <= i < buffer.Length ==> buffer[i] == 0
      ensures fileWriteOffset == if useDisk then backupLength else old(fileWriteOffset)
      ensures bufferSize == old(bufferSize) && writeOffset == old(writeOffset) && readOffset == old(readOffset)
    {
      buffer := new byte[bufferCapacity](_ => 0);
      if useDisk {
        fileWriteOffset := backupLength;
      }
    }

    /** reset(): nothing stored, both offsets and the backup file offset at 0. */
    method Reset()
      requires Valid()
      modifies this
      ensures Valid() && Contents() == []
      ensures bufferSize == 0 && writeOffset == 0 && readOffset == 0 && fileWriteOffset == 0
      ensures buffer == old(buffer)
    {
      bufferSize := 0;
      writeOffset := 0;
      readOffset := 0;
      fileWriteOffset := 0;
    }

    /** The ring is mapped: the positions the copies index are in range. */
    ghost predicate Mapped()
      reads this
    {
      bufferCapacity > 0 && buffer != null && buffer.Length == bufferCapacity && readOffset < bufferCapacity
    }

    /**
     * Copies `bytes` into the ring from `offset`, the write position of a
     * ring holding `size` bytes, wrapping at its end: what the ring holds
     * grows by `bytes`.
     */
    method WriteBytes(bytes: seq<byte>, offset: nat, size: nat)
      requires Mapped() && size + |bytes| <= bufferCapacity && offset == Wrap(readOffset + size, bufferCapacity)
      modifies buffer
      ensures Window(buffer[..], readOffset, size) == old(Window(buffer[..], readOffset, size))
      ensures Window(buffer[..], readOffset, size + |bytes|) == old(Window(buffer[..], readOffset, size)) + bytes
    {
      ghost var before := buffer[..];
      var i := 0;
      while i < |bytes|
        invariant 0 <= i <= |bytes|
        invariant buffer[..] == WriteArc(before, offset, bytes[..i])
      {
        WriteArcStep(before, offset, bytes, i);
        buffer[Wrap(offset + i, buffer.Length)] := bytes[i];
        i := i + 1;
      }
      assert bytes[..i] == bytes;
      WriteExtendsWindow(before, readOffset, size, bytes);
    }

    /** Copies `len` bytes out of the ring from `offset` on, wrapping at its end. */
    method ReadBytes(offset: nat, len: nat) returns (out: seq<byte>)
      requires buffer != null && offset < buffer.Length && len <= buffer.Length
      ensures out == Window(buffer[..], offset, len)
    {
      out := [];
      var k := 0;
      while k < len
        invariant 0 <= k <= len
        invariant out == Window(buffer[..], offset, k)
      {
        out := out + [buffer[Wrap(offset + k, buffer.Length)]];
        k := k + 1;
      }
    }

    /**
     * The copy at the heart of every pushImpl: fails when `bytes` do not fit
     * after the `size` bytes the local pair (offset, size) accounts for,
     * otherwise copies them at `offset` and advances the pair.
     */
    method PushBytes(bytes: seq<byte>, offset: nat, size: nat) returns (ok: bool, offset': nat, size': nat)
      requires Mapped()
      requires size <= bufferCapacity && offset == Wrap(readOffset + size, bufferCapacity)
      modifies buffer
      ensures ok <==> size + |bytes| <= bufferCapacity
      ensures size' == if ok then size + |bytes| else size
      ensures offset' == Wrap(readOffset + size', bufferCapacity)
      ensures Window(buffer[..], readOffset, size) == old(Window(buffer[..], readOffset, size))
      ensures ok ==> Window(buffer[..], readOffset, size') == old(Window(buffer[..], readOffset, size)) + bytes
    {
      if size + |bytes| > bufferCapacity {
        return false, offset, size;
      }
      WriteBytes(bytes, offset, size);
      ok, offset', size' := true, Wrap(offset + |bytes|, bufferCapacity), size + |bytes|;
    }

    /** pushImpl for an integral of `width` bytes: its object bytes. */
    method PushIntegral(width: nat, n: nat, offset: nat, size: nat) returns (ok: bool, offset': nat, size': nat)
      requires Mapped()
      requires size <= bufferCapacity && offset == Wrap(readOffset + size, bufferCapacity)
      modifies buffer
      ensures ok <==> size + width <= bufferCapacity
      ensures size' == if ok then size + width else size
      ensures offset' == Wrap(readOffset + size', bufferCapacity)
      ensures Window(buffer[..], readOffset, size) == old(Window(buffer[..], readOffset, size))
      ensures ok ==> Window(buffer[..], readOffset, size') == old(Window(buffer[..], readOffset, size)) + LittleEndian(n, width)
    {
      ok, offset', size' := PushBytes(LittleEndian(n, width), offset, size);
    }

    /**
     * pushImpl for a string: the length prefix as a size_t, then the bytes.
     * When only the prefix fits, it fails with the prefix already counted
     * in the local pair.
     */
    method PushString(text: seq<byte>, offset: nat, size: nat) returns (ok: bool, offset': nat, size': nat)
      requires Mapped()
      requires size <= bufferCapacity && offset == Wrap(readOffset + size, bufferCapacity)
      modifies buffer
      ensures ok <==> size + SizeTWidth + |text| <= bufferCapacity
      ensures size' == if ok then size + SizeTWidth + |text| else if size + SizeTWidth <= bufferCapacity then size + SizeTWidth else size
      ensures offset' == Wrap(readOffset + size', bufferCapacity)
      ensures Window(buffer[..], readOffset, size) == old(Window(buffer[..], readOffset, size))
      ensures ok ==> Window(buffer[..], readOffset, size') == old(Window(buffer[..], readOffset, size)) + Encode(Str(text))
    {
      ghost var a0 := buffer[..];
      ok, offset', size' := PushIntegral(SizeTWidth, |text|, offset, size);
      if !ok {
        return;
      }
      ghost var a1 := buffer[..];
      ok, offset', size' := PushBytes(text, offset', size');
      StringPushed(a0, a1, buffer[..], readOffset, size, LittleEndian(|text|, SizeTWidth), text, ok);
    }

    /**
     * The copy at the heart of every pullImpl: fails when fewer than `len`
     * bytes are left after the local offset, otherwise copies them out and
     * advances the pair past them.
     */
    method PullBytes(len: nat, offset: nat, size: nat) returns (ok: bool, bytes: seq<byte>, offset': nat, size': nat)
      requires Mapped()
      requires offset < bufferCapacity && size <= bufferCapacity
      ensures ok <==> len <= size
      ensures size' == if ok then size - len else size
      ensures offset' == Wrap(offset + (size - size'), bufferCapacity)
      ensures ok ==> bytes == Window(buffer[..], offset, size)[..len]
      ensures ok ==> Window(buffer[..], offset', size') == Window(buffer[..], offset, size)[len..]
    {
      if size < len {
        return false, [], offset, size;
      }
      bytes := ReadBytes(offset, len);
      WindowPrefix(buffer[..], offset, size, len);
      WindowAdvance(buffer[..], offset, size, len);
      ok, offset', size' := true, Wrap(offset + len, bufferCapacity), size - len;
    }

    /**
     * pullImpl for an integral of `width` bytes, on the local pair
     * (offset, size) of the next unread byte and the bytes left after it.
     * Fails when fewer than `width` bytes are left.
     */
    method PullIntegral(width: nat, offset: nat, size: nat) returns (ok: bool, n: nat, offset': nat, size': nat)
      requires Mapped()
      requires offset < bufferCapacity && size <= bufferCapacity
      ensures size' <= size
      ensures (ok, size - size') == PullStep(Integral(width), Window(buffer[..], offset, size))
      ensures offset' == Wrap(offset + (size - size'), bufferCapacity)
      ensures ok ==> DecodeOne(Integral(width), Window(buffer[..], offset, size))
                     == Some((Int(width, n), Window(buffer[..], offset', size')))
    {
      var bytes;
      ok, bytes, offset', size' := PullBytes(width, offset, size);
      n := FromLittleEndian(bytes);
    }

    /** pullImpl for a string: the size_t length prefix, then that many bytes. */
    method PullString(offset: nat, size: nat) returns (ok: bool, text: seq<byte>, offset': nat, size': nat)
      requires Mapped()
      requires offset < bufferCapacity && size <= bufferCapacity
      ensures size' <= size
      ensures (ok, size - size') == PullStep(Text, Window(buffer[..], offset, size))
      ensures offset' == Wrap(offset + (size - size'), bufferCapacity)
      ensures ok ==> DecodeOne(Text, Window(buffer[..], offset, size))
                     == Some((Str(text), Window(buffer[..], offset', size')))
    {
      var length;
      ok, length, offset', size' := PullIntegral(SizeTWidth, offset, size);
      text := [];
      if !ok {
        return;
      }
      ghost var w1 := Window(buffer[..], offset', size');
      var offset1, size1 := offset', size';
      ok, text, offset', size' := PullBytes(length, offset', size');
      TextPulled(Window(buffer[..], offset, size), w1, ok, text, Window(buffer[..], offset', size'));
      WrapAdd(offset + SizeTWidth, size1 - size', bufferCapacity);
    }

    /** The pushImpl overload for the field's type. */
    method PushField(v: Value, offset: nat, size: nat) returns (ok: bool, offset': nat, size': nat)
      requires Mapped()
      requires size <= bufferCapacity && offset == Wrap(readOffset + size, bufferCapacity)
      modifies buffer
      ensures (ok, size') == PushStep(bufferCapacity, v, size)
      ensures offset' == Wrap(readOffset + size', bufferCapacity)
      ensures Window(buffer[..], readOffset, size) == old(Window(buffer[..], readOffset, size))
      ensures ok ==> Window(buffer[..], readOffset, size') == old(Window(buffer[..], readOffset, size)) + Encode(v)
    {
      match v {
        case Int(w, n) =>
          ok, offset', size' := PushIntegral(w, n, offset, size);
        case Str(t) =>
          ok, offset', size' := PushString(t, offset, size);
      }
    }

    /** The pullImpl overload for the field's type. */
    method PullField(k: FieldKind, offset: nat, size: nat) returns (ok: bool, v: Value, offset': nat, size': nat)
      requires Mapped()
      requires offset < bufferCapacity && size <= bufferCapacity
      ensures size' <= size
      ensures offset' == Wrap(offset + (size - size'), bufferCapacity)
      ensures Window(buffer[..], offset', size') == Window(buffer[..], offset, size)[size - size'..]
      ensures ok <==> DecodeOne(k, Window(buffer[..], offset, size)).Some?
      ensures ok ==> DecodeOne(k, Window(buffer[..], offset, size)) == Some((v, Window(buffer[..], offset', size')))
    {
      match k {
        case Integral(width) =>
          var n;
          ok, n, offset', size' := PullIntegral(width, offset, size);
          v := Int(width, n);
        case Text =>
          var t;
          ok, t, offset', size' := PullString(offset, size);
          v := Str(t);
      }
    }

    /**
     * The fold of pushImpl over a record's fields, on the local pair
     * (offset, size), stopping at the first field that does not fit.
     */
    method WriteRecord(args: seq<Value>, offset: nat, size: nat) returns (ok: bool, offset': nat, size': nat)
      requires Mapped()
      requires size <= bufferCapacity && offset == Wrap(readOffset + size, bufferCapacity)
      modifies buffer
      ensures ok <==> |args| > 0 && size + |EncodeAll(args)| <= bufferCapacity
      ensures Window(buffer[..], readOffset, size) == old(Window(buffer[..], readOffset, size))
      ensures ok ==> size' == size + |EncodeAll(args)| && offset' == Wrap(readOffset + size', bufferCapacity)
      ensures ok ==> Window(buffer[..], readOffset, size') == old(Window(buffer[..], readOffset, size)) + EncodeAll(args)
    {
      ghost var stored := Window(buffer[..], readOffset, size);
      offset', size' := offset, size;
      ok := false;
      var i := 0;
      while i < |args|
        invariant 0 <= i <= |args| && (ok <==> i > 0)
        invariant size' == size + |EncodeAll(args[..i])| <= bufferCapacity
        invariant offset' == Wrap(readOffset + size', bufferCapacity)
        invariant Window(buffer[..], readOffset, size') == stored + EncodeAll(args[..i])
        decreases |args| - i
      {
        var fieldOk: bool, offset1: nat, size1: nat := PushField(args[i], offset', size');
        EncodeAllSnoc(args, i);
        if !fieldOk {
          assert size + |EncodeAll(args)| > bufferCapacity;
          ok := false;
          break;
        }
        AppendAssoc(stored, EncodeAll(args[..i]), Encode(args[i]));
        ok, offset', size' := true, offset1, size1;
        i := i + 1;
      }
      if ok {
        assert args[..i] == args;
      } else {
        assert |args| > 0 ==> size + |EncodeAll(args)| > bufferCapacity;
      }
      WindowPrefix(buffer[..], readOffset, size', size);
    }

    /**
     * push(args...), with the record's fields written one after the other
     * and the first field that does not fit ending the push.  Succeeds when
     * the buffer is open, the record has a field and the whole record fits;
     * then the stored bytes grow by the record's encoding, otherwise they
     * are as before.
     */
    method Push(args: seq<Value>) returns (ok: bool)
      requires Valid() && ConformsAll(args, fields)
      modifies this, buffer
      ensures Valid() && buffer == old(buffer) && readOffset == old(readOffset)
      ensures fileWriteOffset == old(fileWriteOffset)
      ensures ok <==> old(buffer) != null && |args| > 0 && old(bufferSize) + |EncodeAll(args)| <= bufferCapacity
      ensures ok ==> Contents() == old(Contents()) + EncodeAll(args)
      ensures !ok ==> Contents() == old(Contents()) && bufferSize == old(bufferSize) && writeOffset == old(writeOffset)
    {
      if buffer == null {
        return false;
      }
      var offset, size;
      ok, offset, size := WriteRecord(args, writeOffset, bufferSize);
      if ok {
        writeOffset, bufferSize := offset, size;
      }
    }

    /**
     * The fold of pullImpl over the record's fields, on the local pair
     * (offset, size), stopping at the first field that is missing.
     */
    method ReadRecord(offset: nat, size: nat) returns (ok: bool, values: seq<Value>, offset': nat, size': nat)
      requires Mapped() && offset < bufferCapacity && size <= bufferCapacity
      ensures ok <==> |fields| > 0 && DecodeAll(fields, Window(buffer[..], offset, size)).Some?
      ensures ok ==> size' <= size && offset' == Wrap(offset + (size - size'), bufferCapacity)
      ensures ok ==> DecodeAll(fields, Window(buffer[..], offset, size)) == Some((values, Window(buffer[..], offset', size')))
    {
      ghost var stored := Window(buffer[..], offset, size);
      offset', size' := offset, size;
      values := [];
      PrependNil(DecodeAll(fields, stored));
      ok := false;
      var i := 0;
      while i < |fields|
        invariant 0 <= i <= |fields| && |values| == i && (ok <==> i > 0)
        invariant size' <= size && offset' == Wrap(offset + (size - size'), bufferCapacity)
        invariant DecodeAll(fields, stored) == Prepend(values, DecodeAll(fields[i..], Window(buffer[..], offset', size')))
        decreases |fields| - i
      {
        ghost var w := Window(buffer[..], offset', size');
        var fieldOk: bool, v: Value, offset1: nat, size1: nat := PullField(fields[i], offset', size');
        if !fieldOk {
          ReadFieldFails(fields, i, values, stored, w);
          ok := false;
          break;
        }
        ReadFieldStep(fields, i, values, stored, w, v, Window(buffer[..], offset1, size1));
        WrapAdd(offset + (size - size'), size' - size1, bufferCapacity);
        ok, values, offset', size' := true, values + [v], offset1, size1;
        i := i + 1;
      }
      if ok {
        ReadFieldsDone(fields, values, stored, Window(buffer[..], offset', size'));
      }
    }

    /**
     * pull(args...), with the record's fields read one after the other and
     * the first missing field ending the pull.  Succeeds when the buffer is
     * open, the record has a field and the stored bytes begin with a whole
     * record; then the record is the values and the stored bytes lose it,
     * otherwise nothing changes.
     */
    method Pull() returns (ok: bool, values: seq<Value>)
      requires Valid()
      modifies this
      ensures Valid() && buffer == old(buffer) && writeOffset == old(writeOffset)
      ensures fileWriteOffset == old(fileWriteOffset)
      ensures ok <==> old(buffer) != null && |fields| > 0 && DecodeAll(fields, old(Contents())).Some?
      ensures ok ==> DecodeAll(fields, old(Contents())) == Some((values, Contents()))
      ensures !ok ==> readOffset == old(readOffset) && bufferSize == old(bufferSize)
    {
      if buffer == null {
        return false, [];
      }
      var offset, size;
      ok, values, offset, size := ReadRecord(readOffset, bufferSize);
      if ok {
        WrapAdd(readOffset + (bufferSize - size), size, bufferCapacity);
        readOffset, bufferSize := offset, size;
      }
    }
  }
}
