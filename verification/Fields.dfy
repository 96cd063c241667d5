/** The fields a message body is made of, as the writers of
    include/network/networkmessage.h lay them out and its readers take them
    back. A body being written is the byte string appended so far; a body
    being read is the bytes left and whether a read has overrun. */
module Fields {
  import opened Words

  const MAX_BODY_LENGTH := MAX_SIZE - 2 - 4 - 8
  const RESERVED := 8
  const MAX_STRING := 8192

  /** `canAdd`: a body of `n` bytes ends at position `n + 8`. */
  predicate CanHold(n: nat) {
    n + RESERVED < MAX_BODY_LENGTH
  }

  function Append(body: seq<byte>, bytes: seq<byte>): seq<byte> {
    if CanHold(|body| + |bytes|) then body + bytes else body
  }

  /** What one call of `addByte`, `add<T>`, `addString` or `addBytes` writes. */
  datatype Field = U8(b: byte) | U16(w: u16) | U32(d: u32) | U64(q: u64) | Text(s: seq<byte>) | Raw(s: seq<byte>) {
    predicate Writable() {
      Text? || Raw? ==> |s| <= MAX_STRING
    }

    function Bytes(): (r: seq<byte>)
      requires Writable()
    {
      match this
      case U8(b) => [b]
      case U16(w) => Store16(w)
      case U32(d) => Store32(d)
      case U64(q) => Store64(q)
      case Text(s) => Store16(|s|) + s
      case Raw(s) => s
    }

    function Kind(): FieldKind {
      match this
      case U8(_) => Byte
      case U16(_) => Word
      case U32(_) => DWord
      case U64(_) => QWord
      case Text(_) => String
      case Raw(s) => Block(|s|)
    }

    function Size(): nat {
      match this
      case U8(_) => 1
      case U16(_) => 2
      case U32(_) => 4
      case U64(_) => 8
      case Text(s) => |s| + 2
      case Raw(s) => |s|
    }
  }

  datatype FieldKind = Byte | Word | DWord | QWord | String | Block(n: nat)

  function Write(body: seq<byte>, f: Field): seq<byte> {
    if f.Writable() then Append(body, f.Bytes()) else body
  }

  function WriteAll(body: seq<byte>, fs: seq<Field>): (r: seq<byte>)
    ensures body <= r
    decreases |fs|
  {
    if fs == [] then body else WriteAll(Write(body, fs[0]), fs[1..])
  }

  /** No write is refused. */
  predicate AllAccepted(body: seq<byte>, fs: seq<Field>)
    decreases |fs|
  {
    fs == [] ||
    (fs[0].Writable() && CanHold(|body| + |fs[0].Bytes()|) && AllAccepted(body + fs[0].Bytes(), fs[1..]))
  }

  datatype Reader = Reader(rest: seq<byte>, overrun: bool)

  /** The `n` bytes a read obtains; none, and an overrun, when there are fewer. */
  function Take(r: Reader, n: nat): (seq<byte>, Reader) {
    if n <= |r.rest| then (r.rest[..n], Reader(r.rest[n..], r.overrun)) else ([], Reader(r.rest, true))
  }

  function ReadByte(r: Reader): (byte, Reader) {
    var t := Take(r, 1);
    (if |t.0| == 1 then t.0[0] else 0, t.1)
  }

  function Read16(r: Reader): (u16, Reader) {
    var t := Take(r, 2);
    (if |t.0| == 2 then Load16(t.0) else 0, t.1)
  }

  function Read32(r: Reader): (u32, Reader) {
    var t := Take(r, 4);
    (if |t.0| == 4 then Load32(t.0) else 0, t.1)
  }

  function Read64(r: Reader): (u64, Reader) {
    var t := Take(r, 8);
    (if |t.0| == 8 then Load64(t.0) else 0, t.1)
  }

  /** `getString(0)`: a length, then that many bytes. */
  function ReadString(r: Reader): (seq<byte>, Reader) {
    var n := Read16(r);
    Take(n.1, n.0)
  }

  /** Raw bytes are read by `getString(n)`, and none by no read at all. */
  function Read(r: Reader, k: FieldKind): (Field, Reader) {
    match k
    case Byte => var t := ReadByte(r); (U8(t.0), t.1)
    case Word => var t := Read16(r); (U16(t.0), t.1)
    case DWord => var t := Read32(r); (U32(t.0), t.1)
    case QWord => var t := Read64(r); (U64(t.0), t.1)
    case String => var t := ReadString(r); (Text(t.0), t.1)
    case Block(n) => var t := Take(r, n); (Raw(t.0), t.1)
  }

  function ReadAll(r: Reader, ks: seq<FieldKind>): (seq<Field>, Reader)
    decreases |ks|
  {
    if ks == [] then ([], r) else
      var t := Read(r, ks[0]);
      var u := ReadAll(t.1, ks[1..]);
      ([t.0] + u.0, u.1)
  }

  function Kinds(fs: seq<Field>): seq<FieldKind> {
    if fs == [] then [] else [fs[0].Kind()] + Kinds(fs[1..])
  }

  /** A read without overrun of a field of the right kind returns the field if,
      and only if, its bytes come next. */
  lemma ReadField(r: Reader, f: Field, tail: seq<byte>)
    requires f.Writable() && !r.overrun
    ensures Read(r, f.Kind()) == (f, Reader(tail, false)) <==> r.rest == f.Bytes() + tail
  {
    hide Load16, Load32, Load64, Store16, Store32, Store64;
    var s := r.rest;
    match f
    case U8(b) =>
      assert |s| >= 1 ==> s == [s[0]] + s[1..];
    case U16(w) =>
      LoadStore16(w);
      if |s| >= 2 {
        StoreLoad16(s[..2]);
      }
      Divided(s, Store16(w), tail);
    case U32(d) =>
      LoadStore32(d);
      if |s| >= 4 {
        StoreLoad32(s[..4]);
      }
      Divided(s, Store32(d), tail);
    case U64(q) =>
      LoadStore64(q);
      if |s| >= 8 {
        StoreLoad64(s[..8]);
      }
      Divided(s, Store64(q), tail);
    case Text(t) =>
      ReadText(s, t, tail);
    case Raw(t) =>
      Divided(s, t, tail);
  }

  lemma Divided(s: seq<byte>, t: seq<byte>, tail: seq<byte>)
    ensures s == t + tail <==> |t| <= |s| && s[..|t|] == t && s[|t|..] == tail
  {
    if |t| <= |s| {
      assert s == s[..|t|] + s[|t|..];
    }
  }

  lemma ReadText(s: seq<byte>, t: seq<byte>, tail: seq<byte>)
    requires |t| <= MAX_STRING
    ensures ReadString(Reader(s, false)) == (t, Reader(tail, false)) <==> s == Store16(|t|) + t + tail
  {
    if s == Store16(|t|) + t + tail {
      LoadStore16(|t|);
      assert s[..2] == Store16(|t|) && s[2..] == t + tail;
      assert s[2..][..|t|] == t && s[2..][|t|..] == tail;
    }
    if ReadString(Reader(s, false)) == (t, Reader(tail, false)) {
      StoreLoad16(s[..2]);
      assert s == s[..2] + s[2..][..|t|] + s[2..][|t|..];
    }
  }

  lemma ReadOne(r: Reader, k: FieldKind, ks: seq<FieldKind>)
    ensures var t := Read(r, k);
            var u := ReadAll(t.1, ks);
            ReadAll(r, [k] + ks) == ([t.0] + u.0, u.1)
  {
    hide Read;
    assert ([k] + ks)[1..] == ks;
  }

  /** Reading from the start of `body`: what was written there before comes
      back unchanged, without overrun. */
  lemma {:induction false} WrittenIsRead(body: seq<byte>, fs: seq<Field>, tail: seq<byte>)
    requires AllAccepted(body, fs)
    ensures ReadAll(Reader(WriteAll(body, fs)[|body|..] + tail, false), Kinds(fs)) == (fs, Reader(tail, false))
    decreases |fs|
  {
    hide Read, Field.Bytes, ReadAll;
    if fs == [] {
      NothingRead(Reader(tail, false));
      assert WriteAll(body, fs)[|body|..] + tail == tail;
    } else {
      var next := body + fs[0].Bytes();
      var all := WriteAll(next, fs[1..]);
      WrittenIsRead(next, fs[1..], tail);
      assert all[|body|..] + tail == fs[0].Bytes() + (all[|next|..] + tail);
      ReadField(Reader(all[|body|..] + tail, false), fs[0], all[|next|..] + tail);
      ReadOne(Reader(all[|body|..] + tail, false), fs[0].Kind(), Kinds(fs[1..]));
      assert fs == [fs[0]] + fs[1..];
    }
  }

  lemma NothingRead(r: Reader)
    ensures ReadAll(r, []) == ([], r)
  {
  }

  /** Overrunning is never undone by later reads. */
  lemma {:induction false} OverrunStays(r: Reader, ks: seq<FieldKind>)
    requires r.overrun
    ensures ReadAll(r, ks).1.overrun
    decreases |ks|
  {
    if ks != [] {
      OverrunStays(Read(r, ks[0]).1, ks[1..]);
    }
  }

  function TotalSize(fs: seq<Field>): nat {
    if fs == [] then 0 else fs[0].Size() + TotalSize(fs[1..])
  }

  /** Reading back `fs` without overrun takes exactly the size of `fs`. */
  lemma {:induction false} ReadConsumes(r: Reader, fs: seq<Field>)
    requires ReadAll(r, Kinds(fs)).0 == fs && !ReadAll(r, Kinds(fs)).1.overrun
    ensures |r.rest| == TotalSize(fs) + |ReadAll(r, Kinds(fs)).1.rest|
    decreases |fs|
  {
    if r.overrun {
      OverrunStays(r, Kinds(fs));
    } else if fs != [] {
      var t := Read(r, fs[0].Kind());
      var u := ReadAll(t.1, Kinds(fs[1..]));
      assert ([t.0] + u.0)[0] == fs[0] && ([t.0] + u.0)[1..] == fs[1..];
      if t.1.overrun {
        OverrunStays(t.1, Kinds(fs[1..]));
      }
      ReadConsumes(t.1, fs[1..]);
    }
  }

  /** What all the writes add up to. */
  lemma {:induction false} WrittenSize(body: seq<byte>, fs: seq<Field>)
    requires CanHold(|body|)
    ensures |WriteAll(body, fs)| <= |body| + TotalSize(fs)
    ensures |WriteAll(body, fs)| == |body| + TotalSize(fs) <==> AllAccepted(body, fs)
    decreases |fs|
  {
    if fs != [] {
      WrittenSize(Write(body, fs[0]), fs[1..]);
    }
  }

  /** What fits as a whole is accepted field by field. */
  lemma {:induction false} SmallAccepted(body: seq<byte>, fs: seq<Field>)
    requires CanHold(|body| + TotalSize(fs)) && forall i | 0 <= i < |fs| :: fs[i].Writable()
    ensures AllAccepted(body, fs)
    decreases |fs|
  {
    if fs != [] {
      SmallAccepted(body + fs[0].Bytes(), fs[1..]);
    }
  }

  lemma {:induction false} AcceptedWritable(body: seq<byte>, fs: seq<Field>, i: nat)
    requires AllAccepted(body, fs) && i < |fs|
    ensures fs[i].Writable()
    decreases |fs|
  {
    if i > 0 {
      AcceptedWritable(body + fs[0].Bytes(), fs[1..], i - 1);
    }
  }

  /** A sequence of fields, written behind any body that can be, is returned
      unchanged by the matching reads, with no overrun and nothing but the tail
      left, exactly when no write was refused. */
  lemma FieldRoundTrip(body: seq<byte>, fs: seq<Field>, tail: seq<byte>)
    requires CanHold(|body|)
    ensures ReadAll(Reader(WriteAll(body, fs)[|body|..] + tail, false), Kinds(fs)) == (fs, Reader(tail, false))
            <==> AllAccepted(body, fs)
  {
    var r := Reader(WriteAll(body, fs)[|body|..] + tail, false);
    if AllAccepted(body, fs) {
      WrittenIsRead(body, fs, tail);
    } else if ReadAll(r, Kinds(fs)) == (fs, Reader(tail, false)) {
      ReadConsumes(r, fs);
      WrittenSize(body, fs);
      assert false;
    }
  }

  /** Every body length up to 24567 can be written, byte by byte, and no
      sequence of writes goes beyond it. */
  lemma {:induction false} ReachableBodies(n: nat)
    requires n <= 24567
    ensures exists fs :: AllAccepted([], fs) && |WriteAll([], fs)| == n
  {
    var fs := Zeros(n);
    ZerosAccepted([], n);
    WrittenSize([], fs);
  }

  function Zeros(n: nat): seq<Field> {
    if n == 0 then [] else [U8(0)] + Zeros(n - 1)
  }

  lemma {:induction false} ZerosAccepted(body: seq<byte>, n: nat)
    requires |body| + n <= 24567
    ensures AllAccepted(body, Zeros(n)) && TotalSize(Zeros(n)) == n
    decreases n
  {
    if n > 0 {
      assert Zeros(n)[1..] == Zeros(n - 1);
      ZerosAccepted(body + [0], n - 1);
    }
  }

  lemma {:induction false} BodiesBounded(body: seq<byte>, fs: seq<Field>)
    requires |body| <= 24567
    ensures |WriteAll(body, fs)| <= 24567
    decreases |fs|
  {
    if fs != [] {
      BodiesBounded(Write(body, fs[0]), fs[1..]);
    }
  }

  /** The bytes of fields, one after the other. */
  function BytesOf(fs: seq<Field>): seq<byte> {
    if fs == [] then [] else (if fs[0].Writable() then fs[0].Bytes() else []) + BytesOf(fs[1..])
  }

  lemma BytesOfNone()
    ensures BytesOf([]) == []
  {
  }

  lemma BytesOfOne(f: Field)
    requires f.Writable()
    ensures BytesOf([f]) == f.Bytes()
  {
    hide Field.Bytes;
    assert BytesOf([f]) == f.Bytes() + BytesOf([]) == f.Bytes();
  }

  lemma {:induction false} BytesOfAppend(fs: seq<Field>, gs: seq<Field>)
    ensures BytesOf(fs + gs) == BytesOf(fs) + BytesOf(gs)
  {
    hide Field.Bytes;
    if fs == [] {
      assert fs + gs == gs && [] + BytesOf(gs) == BytesOf(gs);
    } else {
      assert (fs + gs)[0] == fs[0] && (fs + gs)[1..] == fs[1..] + gs;
      BytesOfAppend(fs[1..], gs);
    }
  }

  /** When every write is accepted, the fields' bytes have been appended. */
  lemma {:induction false} AcceptedBytes(body: seq<byte>, fs: seq<Field>)
    requires AllAccepted(body, fs)
    ensures WriteAll(body, fs) == body + BytesOf(fs)
    decreases |fs|
  {
    hide Field.Bytes;
    if fs != [] {
      AcceptedBytes(body + fs[0].Bytes(), fs[1..]);
    }
  }
}
