/** The primitive codec of bl_modconv.js: 32-bit integers in the byte order
    the file header selects, and fixed-length strings.

    Out-of-range behaviour follows Node: an index past the end of a buffer
    reads as `undefined`, which `|` and `<<` turn into 0; a write past the end
    of a typed array is dropped; `Buffer.slice` clamps its bounds. */
module Codec {
  import opened Base

  /** Endianness markers (byte 8 of the file header). */
  const LE: byte := 0x76  // 'v'
  const BE: byte := 0x56  // 'V'

  const TWO_31: int := 0x8000_0000
  const TWO_32: int := 0x1_0000_0000

  predicate Supported(endian: byte) {
    endian == LE || endian == BE
  }

  function Min(a: int, b: int): int {
    if a <= b then a else b
  }

  /** JavaScript's ToInt32: the value of the low 32 bits of v read as
      two's complement. This is what `|` and `<<` produce. */
  function ToInt32(v: int): (r: int)
    ensures -TWO_31 <= r < TWO_31
    ensures r % TWO_32 == v % TWO_32
    ensures -TWO_31 <= v < TWO_31 ==> r == v
  {
    Signed32(v % TWO_32)
  }

  /** An unsigned 32-bit pattern read as two's complement. */
  function Signed32(u: int): (r: int)
    requires 0 <= u < TWO_32
    ensures -TWO_31 <= r < TWO_31
    ensures r < 0 <==> u >= TWO_31
  {
    if u < TWO_31 then u else u - TWO_32
  }

  /** `buffer[i]` as an operand of a bit operation: 0 when out of range. */
  function ByteAt(b: seq<byte>, i: int): byte {
    if 0 <= i < |b| then b[i] else 0
  }

  /** A word that runs past the end of the buffer reads as if the buffer
      went on with zero bytes. */
  lemma ReadPastEnd(endian: byte, b: seq<byte>, o: nat)
    ensures ReadUint32(endian, b, o) == ReadUint32(endian, b + Zeros(4), o)
  {
    var b' := b + Zeros(4);
    assert ByteAt(b, o) == ByteAt(b', o) && ByteAt(b, o + 1) == ByteAt(b', o + 1);
    assert ByteAt(b, o + 2) == ByteAt(b', o + 2) && ByteAt(b, o + 3) == ByteAt(b', o + 3);
  }

  /** The unsigned number whose bytes, least significant first, are b0..b3. */
  function Combine(b0: byte, b1: byte, b2: byte, b3: byte): (u: int)
    ensures 0 <= u < TWO_32
  {
    b0 as int + 256 * (b1 as int + 256 * (b2 as int + 256 * b3 as int))
  }

  /** readUint32: the signed 32-bit value at offset o, or the endianness
      error for any marker other than 'v' or 'V'. */
  function ReadUint32(endian: byte, b: seq<byte>, o: nat): (r: Result<int, Error>)
    ensures r.Failure? <==> !Supported(endian)
    ensures r.Failure? ==> r.error == UnsupportedEndianness(endian)
    ensures r.Success? ==> -TWO_31 <= r.value < TWO_31
  {
    if endian == LE then
      Success(Signed32(Combine(ByteAt(b, o), ByteAt(b, o + 1), ByteAt(b, o + 2), ByteAt(b, o + 3))))
    else if endian == BE then
      Success(Signed32(Combine(ByteAt(b, o + 3), ByteAt(b, o + 2), ByteAt(b, o + 1), ByteAt(b, o))))
    else
      Failure(UnsupportedEndianness(endian))
  }

  /** The bytes `(v & 0xff << 8k) >> 8k` for k = 0..3, least significant first,
      after the store into a Uint8Array has reduced each modulo 256. */
  function LittleBytes(v: int): (bs: seq<byte>)
    ensures |bs| == 4
    ensures Combine(bs[0], bs[1], bs[2], bs[3]) == v % TWO_32
  {
    var w := v % TWO_32;
    var q1 := w / 256;
    var q2 := q1 / 256;
    var q3 := q2 / 256;
    assert w == w % 256 + 256 * (q1 % 256 + 256 * (q2 % 256 + 256 * q3));
    [(w % 256) as byte, (q1 % 256) as byte, (q2 % 256) as byte, q3 as byte]
  }

  /** The four bytes writeUint32 puts at offsets o, o+1, o+2, o+3: big-endian
      is the little-endian order reversed. */
  function EncodeUint32(endian: byte, v: int): (bs: seq<byte>)
    requires Supported(endian)
    ensures |bs| == 4
    ensures endian == LE ==> Combine(bs[0], bs[1], bs[2], bs[3]) == v % TWO_32
    ensures endian == BE ==> Combine(bs[3], bs[2], bs[1], bs[0]) == v % TWO_32
  {
    var l := LittleBytes(v);
    if endian == LE then l else [l[3], l[2], l[1], l[0]]
  }

  /** b after writeUint32 at offset o through a view that ends at `limit`:
      each byte lands at its offset unless that offset is at or past the
      view's end, where the store is dropped. */
  function Store(endian: byte, b: seq<byte>, o: nat, v: int, limit: nat): (r: seq<byte>)
    requires Supported(endian) && limit <= |b|
    ensures |r| == |b|
    ensures forall i {:trigger r[i]} :: 0 <= i < |b| && !(o <= i < o + 4 && i < limit) ==> r[i] == b[i]
    ensures forall i {:trigger r[i]} :: o <= i < o + 4 && i < limit ==> r[i] == EncodeUint32(endian, v)[i - o]
  {
    var enc := EncodeUint32(endian, v);
    seq(|b|, i requires 0 <= i < |b| => if o <= i < o + 4 && i < limit then enc[i - o] else b[i])
  }

  /** A `Buffer.slice(start, end)` of a larger buffer: it shares memory, so
      index i of the view is index start + i of the underlying buffer. */
  datatype View = View(start: nat, end: nat)

  /** writeUint32 on a view of `buf`: the only bytes that change are the
      (at most four) encoding bytes that fall inside the view. */
  method WriteUint32(endian: byte, buf: array<byte>, view: View, o: nat, v: int) returns (r: Outcome<Error>)
    requires view.start <= view.end <= buf.Length
    modifies buf
    ensures r.Fail? <==> !Supported(endian)
    ensures r.Fail? ==> r.error == UnsupportedEndianness(endian) && buf[..] == old(buf[..])
    ensures r.Pass? ==> buf[..] == Store(endian, old(buf[..]), view.start + o, v, view.end)
  {
    if !Supported(endian) {
      return Fail(UnsupportedEndianness(endian));
    }
    var bytes := EncodeUint32(endian, v);
    var at := view.start + o;
    for k := 0 to 4
      invariant buf[..] == Store(endian, old(buf[..]), at, v, Min(view.end, at + k))
    {
      if at + k < view.end {
        buf[at + k] := bytes[k];
      }
    }
    r := Pass;
  }

  /** A write through a view lands in the underlying buffer at the shifted
      offset, and nothing outside the view changes. */
  lemma {:induction false} StoreThroughView(endian: byte, b: seq<byte>, view: View, o: nat, v: int)
    requires Supported(endian) && view.start <= view.end <= |b|
    ensures Store(endian, b, view.start + o, v, view.end)
         == b[..view.start] + Store(endian, b[view.start..view.end], o, v, view.end - view.start) + b[view.end..]
  {
    var inner := Store(endian, b[view.start..view.end], o, v, view.end - view.start);
    var lhs := Store(endian, b, view.start + o, v, view.end);
    var rhs := b[..view.start] + inner + b[view.end..];
    assert |lhs| == |rhs|;
    forall i | 0 <= i < |lhs|
      ensures lhs[i] == rhs[i]
    {
      if view.start <= i < view.end {
        assert rhs[i] == inner[i - view.start];
      } else if i < view.start {
        assert rhs[i] == b[i];
      } else {
        assert rhs[i] == b[i];
      }
    }
  }

  /** Decoding inverts encoding: four bytes laid out by EncodeUint32 read
      back as v taken as a signed 32-bit number. */
  lemma ReadEncoded(endian: byte, b: seq<byte>, o: nat, v: int)
    requires Supported(endian) && o + 4 <= |b|
    requires b[o..o + 4] == EncodeUint32(endian, v)
    ensures ReadUint32(endian, b, o) == Success(ToInt32(v))
  {
    var enc := EncodeUint32(endian, v);
    assert ByteAt(b, o) == enc[0] && ByteAt(b, o + 1) == enc[1];
    assert ByteAt(b, o + 2) == enc[2] && ByteAt(b, o + 3) == enc[3];
  }

  /** Round trip: under either supported marker, reading back what
      writeUint32 stored gives v as a signed 32-bit number, which is v
      itself for 0 <= v < 2^31. */
  lemma {:induction false} ReadAfterWrite(endian: byte, b: seq<byte>, o: nat, v: int, limit: nat)
    requires Supported(endian) && o + 4 <= limit <= |b|
    ensures ReadUint32(endian, Store(endian, b, o, v, limit), o) == Success(ToInt32(v))
    ensures 0 <= v < TWO_31 ==> ReadUint32(endian, Store(endian, b, o, v, limit), o) == Success(v)
  {
    var s := Store(endian, b, o, v, limit);
    assert s[o..o + 4] == EncodeUint32(endian, v);
    ReadEncoded(endian, s, o, v);
  }

  /** The bytes of an unsigned value are recovered by LittleBytes. */
  lemma LittleBytesOfCombine(b0: byte, b1: byte, b2: byte, b3: byte)
    ensures LittleBytes(Combine(b0, b1, b2, b3)) == [b0, b1, b2, b3]
  {
    var u := Combine(b0, b1, b2, b3);
    assert u % TWO_32 == u;
    var x2 := b2 as int + 256 * b3 as int;
    var x1 := b1 as int + 256 * x2;
    assert u == b0 as int + 256 * x1;
    assert u % 256 == b0 as int && u / 256 == x1;
    assert x1 % 256 == b1 as int && x1 / 256 == x2;
    assert x2 % 256 == b2 as int && x2 / 256 == b3 as int;
  }

  /** The signed value of a bit pattern has that pattern as its low 32 bits. */
  lemma Signed32Bits(u: int)
    requires 0 <= u < TWO_32
    ensures Signed32(u) % TWO_32 == u
  {
  }

  /** Encoding the value just read gives back the bytes it was read from. */
  lemma EncodeWhatWasRead(endian: byte, b: seq<byte>, o: nat)
    requires Supported(endian) && o + 4 <= |b|
    ensures EncodeUint32(endian, ReadUint32(endian, b, o).value) == b[o..o + 4]
  {
    var v := ReadUint32(endian, b, o).value;
    if endian == LE {
      var u := Combine(b[o], b[o + 1], b[o + 2], b[o + 3]);
      Signed32Bits(u);
      LittleBytesOfCombine(b[o], b[o + 1], b[o + 2], b[o + 3]);
      assert LittleBytes(v) == LittleBytes(u);
    } else {
      var u := Combine(b[o + 3], b[o + 2], b[o + 1], b[o]);
      Signed32Bits(u);
      LittleBytesOfCombine(b[o + 3], b[o + 2], b[o + 1], b[o]);
      assert LittleBytes(v) == LittleBytes(u);
    }
  }

  /** Writing back the value just read leaves the buffer unchanged, under
      either supported marker. */
  lemma {:induction false} WriteWhatWasRead(endian: byte, b: seq<byte>, o: nat)
    requires Supported(endian) && o + 4 <= |b|
    ensures Store(endian, b, o, ReadUint32(endian, b, o).value, |b|) == b
  {
    var v := ReadUint32(endian, b, o).value;
    var enc := EncodeUint32(endian, v);
    EncodeWhatWasRead(endian, b, o);
    var s := Store(endian, b, o, v, |b|);
    forall i | 0 <= i < |b|
      ensures s[i] == b[i]
    {
      if o <= i < o + 4 {
        assert s[i] == enc[i - o] == b[o..o + 4][i - o];
      }
    }
  }

  // ---------------------------------------------------------------------------
  // readString

  const NUL: char := '\0'

  /** The whitespace String.prototype.trim removes, restricted to ASCII. */
  predicate IsSpace(c: char) {
    c == ' ' || '\t' <= c <= '\r'
  }

  /** Buffer.slice(o, o + len), with both ends clamped to the buffer. */
  function Slice(b: seq<byte>, o: nat, len: nat): (s: seq<byte>)
    ensures |s| <= len
    ensures o + len <= |b| ==> s == b[o..o + len]
    ensures 0 < len && |b| < o + len ==> |s| < len
  {
    if o >= |b| then [] else if o + len >= |b| then b[o..] else b[o..o + len]
  }

  /** A range that runs past the end of the buffer is cut at the end: the
      slice is the rest of the buffer from o, or empty when o lies past it. */
  lemma SliceClamped(b: seq<byte>, o: nat, len: nat)
    ensures |b| < o + len ==> Slice(b, o, len) == b[Min(o, |b|)..]
  {
  }

  /** Bytes decoded one character per byte (ASCII). */
  function Chars(bs: seq<byte>): (s: string)
    ensures |s| == |bs|
  {
    seq(|bs|, i requires 0 <= i < |bs| => bs[i] as char)
  }

  /** s without its leading whitespace. */
  function TrimStart(s: string): (r: string)
    ensures |r| <= |s|
    ensures r != [] ==> !IsSpace(r[0])
  {
    if s != [] && IsSpace(s[0]) then TrimStart(s[1..]) else s
  }

  /** TrimStart removes whitespace only. */
  lemma {:induction false} TrimStartRemovesSpaces(s: string, i: nat)
    requires i < |s| - |TrimStart(s)|
    ensures IsSpace(s[i])
  {
    if i > 0 {
      TrimStartRemovesSpaces(s[1..], i - 1);
    }
  }

  /** s without its trailing whitespace. */
  function TrimEnd(s: string): (r: string)
    ensures |r| <= |s|
    ensures r != [] ==> !IsSpace(r[|r| - 1])
  {
    if s != [] && IsSpace(s[|s| - 1]) then TrimEnd(s[..|s| - 1]) else s
  }

  /** TrimEnd removes whitespace only. */
  lemma {:induction false} TrimEndRemovesSpaces(s: string, i: nat)
    requires |TrimEnd(s)| <= i < |s|
    ensures IsSpace(s[i])
  {
    if i < |s| - 1 {
      TrimEndRemovesSpaces(s[..|s| - 1], i);
    }
  }

  /** Trimming that removes nothing leaves the string as it was. */
  lemma FullLengthTrim(s: string)
    requires |Trim(s)| == |s|
    ensures Trim(s) == s
  {
    var t := TrimStart(s);
    assert |t| == |s|;
  }

  /** String.prototype.trim: the run of s between its leading and its
      trailing whitespace. */
  function Trim(s: string): string {
    TrimEnd(TrimStart(s))
  }

  /** What TrimStart returns is the rest of s after the characters it drops. */
  lemma {:induction false} TrimStartIsSuffix(s: string)
    ensures TrimStart(s) == s[|s| - |TrimStart(s)|..]
  {
    if s != [] && IsSpace(s[0]) {
      TrimStartIsSuffix(s[1..]);
      assert s[1..][|s| - 1 - |TrimStart(s)|..] == s[|s| - |TrimStart(s)|..];
    }
  }

  /** What TrimEnd returns is s up to the characters it drops. */
  lemma {:induction false} TrimEndIsPrefix(s: string)
    ensures TrimEnd(s) == s[..|TrimEnd(s)|]
  {
    if s != [] && IsSpace(s[|s| - 1]) {
      TrimEndIsPrefix(s[..|s| - 1]);
      assert s[..|s| - 1][..|TrimEnd(s)|] == s[..|TrimEnd(s)|];
    }
  }

  /** What Trim returns is the run of s between the leading and the
      trailing whitespace it drops. */
  lemma TrimIsInfix(s: string)
    ensures var k := |s| - |TrimStart(s)|; k + |Trim(s)| <= |s| && Trim(s) == s[k..k + |Trim(s)|]
    ensures Trim(s) != [] ==> !IsSpace(Trim(s)[0]) && !IsSpace(Trim(s)[|Trim(s)| - 1])
  {
    var t := TrimStart(s);
    var k := |s| - |t|;
    TrimStartIsSuffix(s);
    TrimEndIsPrefix(t);
    assert t[..|Trim(s)|] == s[k..k + |Trim(s)|];
  }

  /** `.replace(/\0/g, "")`: s with every NUL removed, the rest in order. */
  function RemoveNuls(s: string): (r: string)
    ensures |r| <= |s|
  {
    if s == [] then []
    else (if s[0] == NUL then [] else [s[0]]) + RemoveNuls(s[1..])
  }

  /** Every NUL is removed. */
  lemma {:induction false} RemoveNulsRemovesAll(s: string)
    ensures NUL !in RemoveNuls(s)
  {
    if s != [] {
      RemoveNulsRemovesAll(s[1..]);
    }
  }

  /** A string without NUL is left as it is. */
  lemma {:induction false} RemoveNulsKeepsNulFree(s: string)
    requires NUL !in s
    ensures RemoveNuls(s) == s
  {
    if s != [] {
      assert NUL !in s[1..] by {
        forall c | c in s[1..]
          ensures c != NUL
        {
        }
      }
      RemoveNulsKeepsNulFree(s[1..]);
      assert [s[0]] + s[1..] == s;
    }
  }

  /** Removing NULs that shortens nothing means there were none. */
  lemma {:induction false} FullLengthRemoveNuls(s: string)
    requires |RemoveNuls(s)| == |s|
    ensures RemoveNuls(s) == s
  {
    if s != [] {
      if s[0] != NUL {
        FullLengthRemoveNuls(s[1..]);
      }
    }
  }

  /** A read that returns as many characters as there are bytes returned
      them unchanged. */
  lemma FullLengthRead(bs: seq<byte>)
    requires |RemoveNuls(Trim(Chars(bs)))| == |bs|
    ensures RemoveNuls(Trim(Chars(bs))) == Chars(bs)
  {
    var t := Trim(Chars(bs));
    assert |t| == |bs|;
    FullLengthTrim(Chars(bs));
    FullLengthRemoveNuls(t);
  }

  /** Distinct bytes decode to distinct characters. */
  lemma CharsInjective(a: seq<byte>, c: seq<byte>)
    requires Chars(a) == Chars(c)
    ensures a == c
  {
    assert |a| == |c|;
    forall i | 0 <= i < |a|
      ensures a[i] == c[i]
    {
      assert Chars(a)[i] == Chars(c)[i];
    }
  }

  /** readString: the bytes [o, o + len), trimmed, then stripped of NULs. */
  function ReadString(b: seq<byte>, o: nat, len: nat): (s: string)
    ensures |s| <= len
  {
    RemoveNuls(Trim(Chars(Slice(b, o, len))))
  }

  /** What readString returns holds no NUL. */
  lemma ReadStringHasNoNul(b: seq<byte>, o: nat, len: nat)
    ensures NUL !in ReadString(b, o, len)
  {
    RemoveNulsRemovesAll(Trim(Chars(Slice(b, o, len))));
  }

  lemma {:induction false} RemoveNulsAppend(a: string, b: string)
    ensures RemoveNuls(a + b) == RemoveNuls(a) + RemoveNuls(b)
  {
    if a == [] {
      assert a + b == b;
    } else {
      var h := if a[0] == NUL then [] else [a[0]];
      assert (a + b)[0] == a[0];
      assert (a + b)[1..] == a[1..] + b;
      RemoveNulsAppend(a[1..], b);
      assert RemoveNuls(a + b) == h + (RemoveNuls(a[1..]) + RemoveNuls(b));
      assert RemoveNuls(a) == h + RemoveNuls(a[1..]);
    }
  }

  lemma {:induction false} RemoveNulsOfNuls(s: string)
    requires forall i :: 0 <= i < |s| ==> s[i] == NUL
    ensures RemoveNuls(s) == []
  {
    if s != [] {
      RemoveNulsOfNuls(s[1..]);
    }
  }

  function Zeros(n: nat): (z: seq<byte>)
    ensures |z| == n && forall i :: 0 <= i < n ==> z[i] == 0
  {
    seq(n, i => 0)
  }

  /** A fixed-length field holding a name padded with NULs reads back as
      that name, provided the name has no NUL and does not begin or end with
      whitespace (which trim would drop). */
  lemma {:induction false} ReadPaddedField(b: seq<byte>, o: nat, len: nat, field: seq<byte>)
    requires o + len <= |b| && |field| <= len
    requires b[o..o + len] == field + Zeros(len - |field|)
    requires 0 !in field
    requires field != [] ==> !IsSpace(field[0] as char) && !IsSpace(field[|field| - 1] as char)
    ensures ReadString(b, o, len) == Chars(field)
  {
    var name := Chars(field);
    var pad := Chars(Zeros(len - |field|));
    CharsAppend(field, Zeros(len - |field|));
    var all := name + pad;
    assert Chars(Slice(b, o, len)) == all;
    CharsOfZeros(len - |field|);
    CharsWithoutZero(field);
    if all != [] {
      assert !IsSpace(all[0]) by {
        if name != [] {
          assert all[0] == name[0] == field[0] as char;
        } else {
          assert all[0] == pad[0];
        }
      }
      assert !IsSpace(all[|all| - 1]) by {
        if pad != [] {
          assert all[|all| - 1] == pad[|pad| - 1];
        } else {
          assert all[|all| - 1] == name[|name| - 1] == field[|field| - 1] as char;
        }
      }
    }
    assert Trim(all) == all;
    RemoveNulsAppend(name, pad);
    RemoveNulsOfNuls(pad);
    RemoveNulsKeepsNulFree(name);
    assert RemoveNuls(all) == name + [];
  }

  lemma CharsAppend(a: seq<byte>, c: seq<byte>)
    ensures Chars(a + c) == Chars(a) + Chars(c)
  {
    var l, r := Chars(a + c), Chars(a) + Chars(c);
    forall i | 0 <= i < |l|
      ensures l[i] == r[i]
    {
      if i < |a| {
        assert (a + c)[i] == a[i];
      } else {
        assert (a + c)[i] == c[i - |a|];
      }
    }
  }

  lemma CharsOfZeros(n: nat)
    ensures forall i :: 0 <= i < n ==> Chars(Zeros(n))[i] == NUL
  {
  }

  lemma CharsWithoutZero(field: seq<byte>)
    requires 0 !in field
    ensures NUL !in Chars(field)
  {
    var s := Chars(field);
    forall i | 0 <= i < |s|
      ensures s[i] != NUL
    {
      assert field[i] in field;
    }
  }
}
