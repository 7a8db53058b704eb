/** Big-endian integers and the flat byte sequences that the AMF streams stand for. */
module AmfBytes {

  type Byte = x: int | 0 <= x < 256

  function Pow256(k: nat): (p: nat)
    ensures p > 0
  {
    if k == 0 then 1 else 256 * Pow256(k - 1)
  }

  /** The `k` bytes of `v`, most significant first. */
  function ToBE(k: nat, v: nat): (b: seq<Byte>)
    ensures |b| == k
  {
    if k == 0 then [] else ToBE(k - 1, v / 256) + [v % 256]
  }

  function FromBE(b: seq<Byte>): nat {
    if b == [] then 0 else 256 * FromBE(b[..|b| - 1]) + b[|b| - 1]
  }

  lemma {:induction false} FromToBE(k: nat, v: nat)
    requires v < Pow256(k)
    ensures FromBE(ToBE(k, v)) == v
  {
    if k > 0 {
      FromToBE(k - 1, v / 256);
      assert ToBE(k, v)[..k - 1] == ToBE(k - 1, v / 256);
    }
  }

  /** Byte `i` of `k` is the digit of weight 256^(k - 1 - i): the most significant one comes first. */
  lemma {:induction false} BigEndian(k: nat, v: nat, i: nat)
    requires i < k
    ensures ToBE(k, v)[i] == v / Pow256(k - 1 - i) % 256
    decreases k
  {
    if i == k - 1 {
      assert v / Pow256(0) == v;
    } else {
      BigEndian(k - 1, v / 256, i);
      DivTwice(v, Pow256(k - 2 - i));
    }
  }

  lemma DivTwice(v: nat, p: nat)
    requires p > 0
    ensures v / 256 / p == v / (256 * p)
  {
    var q, r, s := v / 256 / p, v / 256 % p, v % 256;
    assert v == 256 * (q * p + r) + s;
    assert v == q * (256 * p) + (256 * r + s);
    assert 0 <= 256 * r + s < 256 * p;
    DivIs(v, 256 * p, q, 256 * r + s);
  }

  lemma DivIs(v: nat, d: nat, q: nat, r: nat)
    requires d > 0 && r < d && v == q * d + r
    ensures v / d == q
  {
    Quotients(d, v / d, v % d, q, r);
  }

  lemma Quotients(d: nat, q: nat, r: nat, q': nat, r': nat)
    requires r < d && r' < d && q * d + r == q' * d + r'
    ensures q == q'
  {
    if q < q' {
      NextMultiple(d, q, q');
    } else if q' < q {
      NextMultiple(d, q', q);
    }
  }

  lemma NextMultiple(d: nat, a: nat, b: nat)
    requires a < b
    ensures a * d + d <= b * d
  {
    var n := b - a - 1;
    assert b * d == (a + 1 + n) * d == a * d + d + n * d;
    assert n * d >= 0;
  }

  /** Reading is the inverse of writing on every byte sequence, so the bytes fix the value. */
  lemma {:induction false} ToFromBE(b: seq<Byte>)
    ensures FromBE(b) < Pow256(|b|) && ToBE(|b|, FromBE(b)) == b
  {
    if b != [] {
      var front, last := b[..|b| - 1], b[|b| - 1];
      ToFromBE(front);
      assert FromBE(b) / 256 == FromBE(front) && FromBE(b) % 256 == last;
      assert b == front + [last];
    }
  }

  function Flat(chunks: seq<seq<Byte>>): seq<Byte> {
    if chunks == [] then [] else chunks[0] + Flat(chunks[1..])
  }

  function Take(b: seq<Byte>, n: nat): (r: seq<Byte>)
    ensures r <= b && (|r| == n || (r == b && |b| < n))
  {
    if n <= |b| then b[..n] else b
  }

  function Drop(b: seq<Byte>, n: nat): (r: seq<Byte>)
    ensures Take(b, n) + r == b
  {
    if n <= |b| then b[n..] else []
  }

  /** `b` followed by zero bytes up to length `k`. */
  function Pad(b: seq<Byte>, k: nat): (r: seq<Byte>)
    ensures b <= r && (|r| == k || |r| == |b| > k) && forall i :: |b| <= i < |r| ==> r[i] == 0
  {
    if |b| >= k then b else b + seq(k - |b|, _ => 0)
  }

  // ---- Values ----

  datatype Shape = U8 | U16 | U32 | U64 | Raw(n: nat)
  datatype Value = Int(width: Shape, v: nat) | Bytes(b: seq<Byte>)

  function Width(s: Shape): nat {
    match s
    case U8 => 1
    case U16 => 2
    case U32 => 4
    case U64 => 8
    case Raw(n) => n
  }

  ghost predicate Fits(x: Value) {
    x.Int? ==> !x.width.Raw? && x.v < Pow256(Width(x.width))
  }

  function ShapeOf(x: Value): Shape {
    if x.Int? then x.width else Raw(|x.b|)
  }

  function Encode(x: Value): (b: seq<Byte>)
    ensures |b| == Width(ShapeOf(x))
  {
    if x.Int? then ToBE(Width(x.width), x.v) else x.b
  }

  /** How many bytes each kind of value takes, and the two bytes of a 16-bit one. */
  lemma WireWidths(v: nat, b: seq<Byte>)
    ensures |Encode(Int(U8, v))| == 1 && |Encode(Int(U16, v))| == 2
    ensures |Encode(Int(U32, v))| == 4 && |Encode(Int(U64, v))| == 8 && Encode(Bytes(b)) == b
    ensures v < 0x1_0000 ==> Encode(Int(U16, v)) == [v / 256, v % 256]
  {
    if v < 0x1_0000 {
      assert ToBE(1, v / 256) == ToBE(0, v / 256 / 256) + [v / 256 % 256];
      assert ToBE(2, v) == ToBE(1, v / 256) + [v % 256];
    }
  }

  /** Values follow each other on the wire in the order in which they were put. */
  lemma {:induction false} EncodeConcat(xs: seq<Value>, ys: seq<Value>)
    ensures EncodeAll(xs + ys) == EncodeAll(xs) + EncodeAll(ys)
    decreases |xs|
  {
    if xs == [] {
      assert xs + ys == ys;
    } else {
      EncodeConcat(xs[1..], ys);
      assert (xs + ys)[1..] == xs[1..] + ys;
    }
  }

  lemma EncodeOne(x: Value)
    ensures EncodeAll([x]) == Encode(x)
  {
    assert [x][1..] == [];
  }

  function EncodeAll(xs: seq<Value>): seq<Byte> {
    if xs == [] then [] else Encode(xs[0]) + EncodeAll(xs[1..])
  }

  /** What a read of the given shape makes of the bytes it got. */
  function Decode(s: Shape, b: seq<Byte>): Value {
    if s.Raw? then Bytes(b) else Int(s, FromBE(Pad(b, Width(s))))
  }

  /** Reading back an encoded value from the front of a flat sequence. */
  lemma DecodeEncode(x: Value, rest: seq<Byte>)
    requires Fits(x)
    ensures var b := Encode(x) + rest; var n := Width(ShapeOf(x));
            Decode(ShapeOf(x), Take(b, n)) == x && Drop(b, n) == rest
  {
    var b, n := Encode(x) + rest, Width(ShapeOf(x));
    assert Take(b, n) == Encode(x) && Drop(b, n) == rest;
    if x.Int? {
      FromToBE(n, x.v);
    }
  }
}

/** The chunked readers and writers: zero-copy streams hand out buffers of any size, and the AMF streams
    behave as if there were one flat sequence. */
module AmfStreams {
  import opened AmfBytes

  class ZeroCopyInput {
    var chunks: seq<seq<Byte>>

    constructor (chunks: seq<seq<Byte>>)
      ensures this.chunks == chunks
    {
      this.chunks := chunks;
    }

    method Next() returns (ok: bool, data: seq<Byte>)
      modifies this
      ensures ok <==> old(chunks) != []
      ensures ok ==> data == old(chunks)[0] && chunks == old(chunks)[1..]
      ensures !ok ==> data == [] && chunks == []
    {
      if chunks == [] {
        return false, [];
      }
      ok, data, chunks := true, chunks[0], chunks[1..];
    }
  }

  class AMFInputStream {
    /** The bytes from `_data` on, `_size` of them. */
    var data: seq<Byte>
    const zc: ZeroCopyInput
    var poppedBytes: nat

    constructor (stream: ZeroCopyInput)
      ensures zc == stream && data == [] && poppedBytes == 0
    {
      zc, data, poppedBytes := stream, [], 0;
    }

    /** What is still to be read. */
    ghost function Rest(): seq<Byte>
      reads this, zc
    {
      data + Flat(zc.chunks)
    }

    method CutN(n: nat) returns (out: seq<Byte>)
      modifies this, zc
      ensures out == Take(old(Rest()), n) && Rest() == Drop(old(Rest()), n)
      ensures poppedBytes == old(poppedBytes) + |out|
    {
      var left: nat := n;
      out := [];
      ghost var all := Rest();
      while true
        invariant left <= n && |out| == n - left
        invariant out + Rest() == all
        invariant poppedBytes == old(poppedBytes)
        decreases |zc.chunks|
      {
        if |data| >= left {
          CutInside(out, data, Flat(zc.chunks), left, all);
          out := out + data[..left];
          data := data[left..];
          poppedBytes := poppedBytes + n;
          return;
        }
        CutAcross(out, data, zc.chunks, all);
        out := out + data;
        left := left - |data|;
        var ok, next := zc.Next();
        if !ok {
          break;
        }
        data := next;
      }
      data := [];
      poppedBytes := poppedBytes + (n - left);
    }

    /** `*val` keeps its value `was` if the stream is at its end. */
    method CutU8(was: Byte) returns (ret: nat, val: Byte)
      modifies this, zc
      ensures ret == |Take(old(Rest()), 1)| && Rest() == Drop(old(Rest()), 1)
      ensures val == if ret == 1 then old(Rest())[0] else was
      ensures poppedBytes == old(poppedBytes) + ret
    {
      ghost var all := Rest();
      if |data| >= 1 {
        val := data[0];
        data := data[1..];
        poppedBytes := poppedBytes + 1;
        assert Rest() == all[1..];
        return 1, val;
      }
      var out := CutN(1);
      return |out|, if |out| == 1 then out[0] else was;
    }

    /** The shared shape of `cut_u16`, `cut_u32` and `cut_u64`: the fast path reads the value in the
        current chunk; the slow path collects bytes into a zeroed integer first, so that at the end of
        the stream the missing bytes count as zero. */
    method CutFixed(k: nat) returns (ret: nat, val: nat)
      modifies this, zc
      ensures ret == |Take(old(Rest()), k)| && Rest() == Drop(old(Rest()), k)
      ensures val == FromBE(Pad(Take(old(Rest()), k), k))
      ensures poppedBytes == old(poppedBytes) + ret
    {
      ghost var all := Rest();
      if |data| >= k {
        CutInside([], data, Flat(zc.chunks), k, all);
        assert [] + data[..k] == data[..k];
        val := FromBE(data[..k]);
        data := data[k..];
        poppedBytes := poppedBytes + k;
        return k, val;
      }
      var out := CutN(k);
      return |out|, FromBE(Pad(out, k));
    }

    method CutU16() returns (ret: nat, val: nat)
      modifies this, zc
      ensures ret == |Take(old(Rest()), 2)| && Rest() == Drop(old(Rest()), 2)
      ensures val == FromBE(Pad(Take(old(Rest()), 2), 2)) && poppedBytes == old(poppedBytes) + ret
    {
      ret, val := CutFixed(2);
    }

    method CutU32() returns (ret: nat, val: nat)
      modifies this, zc
      ensures ret == |Take(old(Rest()), 4)| && Rest() == Drop(old(Rest()), 4)
      ensures val == FromBE(Pad(Take(old(Rest()), 4), 4)) && poppedBytes == old(poppedBytes) + ret
    {
      ret, val := CutFixed(4);
    }

    method CutU64() returns (ret: nat, val: nat)
      modifies this, zc
      ensures ret == |Take(old(Rest()), 8)| && Rest() == Drop(old(Rest()), 8)
      ensures val == FromBE(Pad(Take(old(Rest()), 8), 8)) && poppedBytes == old(poppedBytes) + ret
    {
      ret, val := CutFixed(8);
    }

    /** Never loses a byte. On a stream that has run dry the answer is right exactly if no empty chunk is
        still to come. */
    method CheckEmptiness() returns (empty: bool)
      modifies this, zc
      ensures Rest() == old(Rest()) && poppedBytes == old(poppedBytes)
      ensures empty ==> Rest() == []
      ensures Rest() == [] ==> (empty <==> old(zc.chunks) == [])
    {
      if |data| != 0 {
        return false;
      }
      var ok, next := zc.Next();
      data := next;
      return !ok;
    }
  }

  /** A wrong answer: with one empty chunk still to come a dry stream is not reported as empty, although
      no byte can be cut from it. */
  method DryNotReported(n: nat) returns (empty: bool, cut: seq<Byte>)
    ensures !empty && cut == []
  {
    var zc := new ZeroCopyInput([[]]);
    var stream := new AMFInputStream(zc);
    assert zc.chunks[1..] == [] && stream.Rest() == [];
    empty := stream.CheckEmptiness();
    cut := stream.CutN(n);
  }

  lemma PartDone(was: seq<Byte>, data: seq<Byte>, k: nat, n: nat)
    requires k + n <= |data|
    ensures (was + data[..k]) + data[k..][..n] == was + data[..k + n] && data[k..][n..] == data[k + n..]
    ensures n == |data| - k ==> data[k..][..n] == data[k..] && data[..k + n] == data
  {
    assert data[..k] + data[k..][..n] == data[..k + n];
  }

  lemma CutInside(out: seq<Byte>, data: seq<Byte>, more: seq<Byte>, left: nat, all: seq<Byte>)
    requires left <= |data| && out + (data + more) == all
    ensures out + data[..left] == Take(all, |out| + left)
    ensures data[left..] + more == Drop(all, |out| + left)
  {
  }

  lemma CutAcross(out: seq<Byte>, data: seq<Byte>, chunks: seq<seq<Byte>>, all: seq<Byte>)
    requires out + (data + Flat(chunks)) == all
    ensures chunks == [] ==> out + data == all
    ensures chunks != [] ==> (out + data) + (chunks[0] + Flat(chunks[1..])) == all
  {
    assert (out + data) + Flat(chunks) == all;
  }

  /** Hands out buffers, with whatever bytes they hold, until there are none left. */
  class ZeroCopyOutput {
    var buffers: seq<seq<Byte>>
    /** All bytes handed out and not backed up. */
    var bytes: seq<Byte>

    constructor (buffers: seq<seq<Byte>>)
      ensures this.buffers == buffers && bytes == []
    {
      this.buffers, bytes := buffers, [];
    }

    method Next() returns (ok: bool, size: nat)
      modifies this
      ensures ok <==> old(buffers) != []
      ensures ok ==> size == |old(buffers)[0]| && bytes == old(bytes) + old(buffers)[0] && buffers == old(buffers)[1..]
      ensures !ok ==> size == 0 && bytes == old(bytes) && buffers == []
    {
      if buffers == [] {
        return false, 0;
      }
      ok, size := true, |buffers[0]|;
      bytes, buffers := bytes + buffers[0], buffers[1..];
    }

    /** A store into a handed-out buffer. */
    method Store(at: nat, data: seq<Byte>)
      requires at + |data| <= |bytes|
      modifies this`bytes
      ensures bytes == old(bytes)[..at] + data + old(bytes)[at + |data|..]
    {
      bytes := bytes[..at] + data + bytes[at + |data|..];
    }

    method BackUp(n: nat)
      requires n <= |bytes|
      modifies this`bytes
      ensures bytes == old(bytes)[..|old(bytes)| - n]
    {
      bytes := bytes[..|bytes| - n];
    }
  }

  class AMFOutputStream {
    var good: bool
    /** Room left in the current buffer, which is the end of the stream's bytes. */
    var size: nat
    const zc: ZeroCopyOutput
    var pushedBytes: nat
    /** Everything put so far. */
    ghost var sent: seq<Byte>

    ghost predicate Valid()
      reads this, zc
    {
      Holds(sent) && pushedBytes == |sent|
    }

    /** What was handed out and filled so far is `written`. */
    ghost predicate Holds(written: seq<Byte>)
      reads this`size, zc`bytes
    {
      size <= |zc.bytes| && zc.bytes[..|zc.bytes| - size] == written
    }

    /** How many more bytes can be put. */
    ghost function Room(): nat
      reads this, zc
    {
      size + |Flat(zc.buffers)|
    }

    constructor (stream: ZeroCopyOutput)
      requires stream.bytes == []
      ensures Valid() && zc == stream && good && sent == [] && size == 0
    {
      good, size, zc, pushedBytes, sent := true, 0, stream, 0, [];
    }

    /** Copies as much of `data` as the current buffer takes; returns what is left over. */
    method Fill(data: seq<Byte>, ghost was: seq<Byte>)
      requires Holds(was) && |data| <= size
      modifies this`size, zc`bytes
      ensures size == old(size) - |data| && Holds(was + data)
    {
      zc.Store(|zc.bytes| - size, data);
      size := size - |data|;
    }

    /** Goes on to the next buffer when the current one is full, and to none, with `_size` zero, if there
        is no further; `written` is what the stream holds. */
    method Advance(ghost written: seq<Byte>) returns (ok: bool)
      requires size == 0 && Holds(written)
      modifies this`size, zc
      ensures Holds(written) && Room() == old(Room())
      ensures if ok then |zc.buffers| < |old(zc.buffers)| else Room() == size == 0
    {
      assert zc.bytes == written;
      ok, size := zc.Next();
      assert zc.bytes[..|zc.bytes| - size] == written;
    }

    /** Appends `data`, or as much of it as there is room for, in which case the stream turns bad. */
    method PutN(data: seq<Byte>)
      requires Valid()
      modifies this, zc
      ensures Valid()
      ensures |data| <= old(Room()) ==>
                sent == old(sent) + data && good == old(good) && Room() == old(Room()) - |data|
      ensures |data| > old(Room()) ==>
                sent == old(sent) + data[..old(Room())] && !good && Room() == 0 && size == 0
    {
      hide Flat, Holds;
      var rest := data;
      ghost var room, was, k := Room(), sent, 0;
      assert was + data[..0] == was && data[0..] == data;
      while true
        invariant 0 <= k <= |data| && rest == data[k..] && Room() == room - k
        invariant Holds(was + data[..k])
        invariant pushedBytes == old(pushedBytes) && good == old(good) && sent == was
        decreases |zc.buffers|
      {
        if |rest| <= size {
          PartDone(was, data, k, |rest|);
          Fill(rest, was + data[..k]);
          pushedBytes := pushedBytes + |data|;
          sent := was + data;
          return;
        }
        PartDone(was, data, k, size);
        k := k + size;
        var part := rest[..size];
        rest := rest[size..];
        Fill(part, was + data[..k - |part|]);
        var ok := Advance(was + data[..k]);
        if !ok {
          break;
        }
      }
      pushedBytes := pushedBytes + (|data| - |rest|);
      sent := was + data[..k];
      if |rest| > 0 {
        good := false;
      }
    }

    method PutU8(v: Byte)
      requires Valid()
      modifies this, zc
      ensures Valid()
      ensures old(Room()) > 0 ==> sent == old(sent) + [v] && good == old(good) && Room() == old(Room()) - 1
      ensures old(Room()) == 0 ==> sent == old(sent) && !good && Room() == 0 && size == 0
    {
      while true
        invariant Valid() && Room() == old(Room()) && sent == old(sent) && good == old(good)
        decreases |zc.buffers|
      {
        if size > 0 {
          Fill([v], sent);
          pushedBytes := pushedBytes + 1;
          sent := sent + [v];
          return;
        }
        var ok := Advance(sent);
        if !ok {
          break;
        }
      }
      good := false;
    }

    /** The shared shape of `put_u16`, `put_u32` and `put_u64`: the bytes of `v` in network order. */
    method PutFixed(k: nat, v: nat)
      requires Valid() && v < Pow256(k)
      modifies this, zc
      ensures Valid()
      ensures k <= old(Room()) ==>
                sent == old(sent) + ToBE(k, v) && good == old(good) && Room() == old(Room()) - k
      ensures k > old(Room()) ==>
                sent == old(sent) + ToBE(k, v)[..old(Room())] && !good && Room() == 0 && size == 0
    {
      PutN(ToBE(k, v));
    }

    method PutU16(v: nat)
      requires Valid() && v < Pow256(2)
      modifies this, zc
      ensures Valid()
      ensures 2 <= old(Room()) ==>
                sent == old(sent) + ToBE(2, v) && good == old(good) && Room() == old(Room()) - 2
      ensures 2 > old(Room()) ==>
                sent == old(sent) + ToBE(2, v)[..old(Room())] && !good && Room() == 0 && size == 0
    {
      PutFixed(2, v);
    }

    method PutU32(v: nat)
      requires Valid() && v < Pow256(4)
      modifies this, zc
      ensures Valid()
      ensures 4 <= old(Room()) ==>
                sent == old(sent) + ToBE(4, v) && good == old(good) && Room() == old(Room()) - 4
      ensures 4 > old(Room()) ==>
                sent == old(sent) + ToBE(4, v)[..old(Room())] && !good && Room() == 0 && size == 0
    {
      PutFixed(4, v);
    }

    method PutU64(v: nat)
      requires Valid() && v < Pow256(8)
      modifies this, zc
      ensures Valid()
      ensures 8 <= old(Room()) ==>
                sent == old(sent) + ToBE(8, v) && good == old(good) && Room() == old(Room()) - 8
      ensures 8 > old(Room()) ==>
                sent == old(sent) + ToBE(8, v)[..old(Room())] && !good && Room() == 0 && size == 0
    {
      PutFixed(8, v);
    }

    /** Gives unused room back: from then on the stream holds exactly what was put. */
    method Done()
      requires Valid()
      modifies this, zc
      ensures Valid() && sent == old(sent) && good == old(good)
      ensures old(good) || old(size) == 0 ==> size == 0 && zc.bytes == sent && |zc.bytes| == pushedBytes
    {
      if good && size > 0 {
        zc.BackUp(size);
        size := 0;
      }
      assert size == 0 ==> zc.bytes[..|zc.bytes| - size] == zc.bytes;
    }
  }

  // ---- Whole messages ----

  method Put(out: AMFOutputStream, x: Value)
    requires out.Valid() && Fits(x) && |Encode(x)| <= out.Room()
    modifies out, out.zc
    ensures out.Valid() && out.sent == old(out.sent) + Encode(x)
    ensures out.good == old(out.good) && out.Room() == old(out.Room()) - |Encode(x)|
  {
    if x.Bytes? {
      out.PutN(x.b);
    } else if x.width == U8 {
      ByteOnWire(x.v);
      out.PutU8(x.v);
    } else if x.width == U16 {
      out.PutU16(x.v);
    } else if x.width == U32 {
      out.PutU32(x.v);
    } else {
      out.PutU64(x.v);
    }
  }

  lemma ByteOnWire(v: nat)
    requires v < Pow256(1)
    ensures v < 256 && ToBE(1, v) == [v]
  {
    assert Pow256(1) == 256 * Pow256(0);
    assert ToBE(0, v / 256) == [];
  }

  method PutAll(out: AMFOutputStream, xs: seq<Value>)
    requires out.Valid() && (forall x :: x in xs ==> Fits(x)) && |EncodeAll(xs)| <= out.Room()
    modifies out, out.zc
    ensures out.Valid() && out.sent == old(out.sent) + EncodeAll(xs) && out.good == old(out.good)
    decreases |xs|
  {
    if xs != [] {
      ghost var sent := out.sent;
      Put(out, xs[0]);
      PutAll(out, xs[1..]);
      assert (sent + Encode(xs[0])) + EncodeAll(xs[1..]) == sent + EncodeAll(xs);
    }
  }

  method Cut(inp: AMFInputStream, s: Shape) returns (x: Value)
    modifies inp, inp.zc
    ensures Width(s) <= |old(inp.Rest())| ==> x == Decode(s, Take(old(inp.Rest()), Width(s)))
    ensures inp.Rest() == Drop(old(inp.Rest()), Width(s))
    ensures inp.poppedBytes == old(inp.poppedBytes) + |Take(old(inp.Rest()), Width(s))|
  {
    if s.Raw? {
      var out := inp.CutN(s.n);
      return Bytes(out);
    } else if s == U8 {
      ghost var all := inp.Rest();
      var ret, val := inp.CutU8(0);
      if |all| >= 1 {
        assert Take(all, 1)[..0] == [] && Pad(Take(all, 1), 1) == [all[0]];
        assert FromBE([all[0]]) == 256 * FromBE([all[0]][..0]) + all[0];
      }
      return Int(U8, val);
    } else if s == U16 {
      var ret, val := inp.CutU16();
      return Int(s, val);
    } else if s == U32 {
      var ret, val := inp.CutU32();
      return Int(s, val);
    } else {
      var ret, val := inp.CutU64();
      return Int(s, val);
    }
  }

  method CutAll(inp: AMFInputStream, shapes: seq<Shape>, ghost xs: seq<Value>, ghost tail: seq<Byte>)
      returns (got: seq<Value>)
    requires inp.Rest() == EncodeAll(xs) + tail && |shapes| == |xs|
    requires forall i :: 0 <= i < |xs| ==> Fits(xs[i]) && shapes[i] == ShapeOf(xs[i])
    modifies inp, inp.zc
    ensures got == xs && inp.Rest() == tail
    ensures inp.poppedBytes == old(inp.poppedBytes) + |EncodeAll(xs)|
    decreases |xs|
  {
    if shapes == [] {
      assert inp.Rest() == tail;
      return [];
    }
    ghost var more := EncodeAll(xs[1..]) + tail;
    assert EncodeAll(xs) + tail == Encode(xs[0]) + more;
    DecodeEncode(xs[0], more);
    var x := Cut(inp, shapes[0]);
    var rest := CutAll(inp, shapes[1..], xs[1..], tail);
    got := [x] + rest;
  }

  /** Whatever buffers the output stream hands out, the puts followed by `done` leave exactly the
      big-endian concatenation of the values. */
  method Send(xs: seq<Value>, buffers: seq<seq<Byte>>) returns (wire: seq<Byte>, pushed: nat)
    requires forall x :: x in xs ==> Fits(x)
    requires |EncodeAll(xs)| <= |Flat(buffers)|
    ensures wire == EncodeAll(xs) && pushed == |wire|
  {
    hide Flat, Fits, EncodeAll;
    var zo := new ZeroCopyOutput(buffers);
    var out := new AMFOutputStream(zo);
    PutAll(out, xs);
    assert out.sent == EncodeAll(xs);
    out.Done();
    wire, pushed := zo.bytes, out.pushedBytes;
  }

  /** Whatever chunks the encoded values come in, the matching cuts return the values and consume
      exactly their bytes. */
  method Receive(shapes: seq<Shape>, chunks: seq<seq<Byte>>, ghost xs: seq<Value>)
      returns (got: seq<Value>, popped: nat)
    requires |shapes| == |xs| && forall i :: 0 <= i < |xs| ==> Fits(xs[i]) && shapes[i] == ShapeOf(xs[i])
    requires Flat(chunks) == EncodeAll(xs)
    ensures got == xs && popped == |EncodeAll(xs)|
  {
    hide Flat, Fits, EncodeAll;
    var zi := new ZeroCopyInput(chunks);
    var inp := new AMFInputStream(zi);
    assert inp.Rest() == EncodeAll(xs) + [];
    got := CutAll(inp, shapes, xs, []);
    popped := inp.poppedBytes;
  }

  /** Both directions: sent through any buffers and received through any chunks of the same bytes. */
  method RoundTrip(xs: seq<Value>, buffers: seq<seq<Byte>>, chunks: seq<seq<Byte>>)
      returns (wire: seq<Byte>, got: seq<Value>)
    requires forall x :: x in xs ==> Fits(x)
    requires |EncodeAll(xs)| <= |Flat(buffers)| && Flat(chunks) == EncodeAll(xs)
    ensures wire == Flat(chunks) && got == xs
  {
    hide Flat, Fits, EncodeAll;
    var pushed, popped;
    wire, pushed := Send(xs, buffers);
    var shapes := seq(|xs|, i requires 0 <= i < |xs| => ShapeOf(xs[i]));
    got, popped := Receive(shapes, chunks, xs);
  }
}
