/** `NetworkMessage` (include/network/networkmessage.h and
    src/network/networkmessage.cpp): a fixed buffer with a cursor, written
    field by field when going out and read field by field when coming in. */
module NetworkMessages {
  import opened Fields
  import opened Words

  class NetworkMessage {
    const buffer: array<byte>
    var length: u16
    var position: u16
    var overrun: bool

    ghost predicate Valid() {
      buffer.Length == MAX_SIZE
    }

    /** A message under construction: the cursor stands at the end of the body. */
    ghost predicate Writing()
      reads this
    {
      Valid() && position == length + RESERVED && CanHold(length)
    }

    ghost function Body(): seq<byte>
      requires Writing()
      reads this, buffer
    {
      buffer[RESERVED..RESERVED + length]
    }

    /** A message whose cursor is inside the received bytes. */
    ghost predicate Reading()
      reads this
    {
      Valid() && position <= length + RESERVED < MAX_SIZE
    }

    ghost function Unread(): Reader
      requires Reading()
      reads this, buffer
    {
      Reader(buffer[position..length + RESERVED], overrun)
    }

    constructor ()
      ensures Writing() && Body() == [] && !overrun && fresh(buffer)
    {
      buffer := new byte[MAX_SIZE];
      length, position, overrun := 0, RESERVED, false;
    }

    predicate CanAdd(size: nat)
      reads this
    {
      size + position < MAX_BODY_LENGTH
    }

    predicate Readable(size: nat)
      reads this
    {
      position + size <= length + RESERVED && size < MAX_SIZE - position
    }

    /** What a write of `bytes` does when it is let through: they land at the
        cursor, and nothing else moves. */
    twostate predicate Put(bytes: seq<byte>)
      requires Valid() && |bytes| + old(position) < MAX_BODY_LENGTH
      reads this, buffer
    {
      && buffer[..] == Splice(old(buffer[..]), old(position), bytes)
      && position == old(position) + |bytes|
      && length == (old(length) + |bytes|) % 0x1_0000
      && overrun == old(overrun)
    }

    /** A write that is let through extends the body by its bytes; one that is
        refused was one the body had no room for. */
    twostate lemma PutExtends(bytes: seq<byte>)
      requires old(Writing())
      requires old(CanAdd(|bytes|)) ==> Put(bytes)
      requires !old(CanAdd(|bytes|)) ==> unchanged(this, buffer)
      ensures Writing() && Body() == Append(old(Body()), bytes)
    {
    }

    method Store(bytes: seq<byte>)
      requires Valid() && CanAdd(|bytes|)
      modifies this, buffer
      ensures Put(bytes)
    {
      Memcpy(buffer, position, bytes);
      position := position + |bytes|;
      length := (length + |bytes|) % 0x1_0000;
    }

    method AddByte(value: byte)
      requires Valid()
      modifies this, buffer
      ensures if old(CanAdd(1)) then Put([value]) else unchanged(this, buffer)
      ensures old(Writing()) ==> Writing() && Body() == Write(old(Body()), U8(value))
    {
      if CanAdd(1) {
        Store([value]);
      }
      if old(Writing()) {
        PutExtends([value]);
      }
    }

    /** `add<uint16_t>` */
    method Add16(value: u16)
      requires Valid()
      modifies this, buffer
      ensures if old(CanAdd(2)) then Put(Store16(value)) else unchanged(this, buffer)
      ensures old(Writing()) ==> Writing() && Body() == Write(old(Body()), U16(value))
    {
      if CanAdd(2) {
        Store(Store16(value));
      }
      if old(Writing()) {
        PutExtends(Store16(value));
      }
    }

    /** `add<uint32_t>` */
    method Add32(value: u32)
      requires Valid()
      modifies this, buffer
      ensures if old(CanAdd(4)) then Put(Store32(value)) else unchanged(this, buffer)
      ensures old(Writing()) ==> Writing() && Body() == Write(old(Body()), U32(value))
    {
      if CanAdd(4) {
        Store(Store32(value));
      }
      if old(Writing()) {
        PutExtends(Store32(value));
      }
    }

    /** `add<uint64_t>` */
    method Add64(value: u64)
      requires Valid()
      modifies this, buffer
      ensures if old(CanAdd(8)) then Put(Store64(value)) else unchanged(this, buffer)
      ensures old(Writing()) ==> Writing() && Body() == Write(old(Body()), U64(value))
    {
      if CanAdd(8) {
        Store(Store64(value));
      }
      if old(Writing()) {
        PutExtends(Store64(value));
      }
    }

    method AddString(value: seq<byte>)
      requires Valid()
      modifies this, buffer
      ensures if old(CanAdd(|value| + 2)) && |value| <= MAX_STRING
              then Put(Store16(|value|) + value) else unchanged(this, buffer)
      ensures old(Writing()) ==> Writing() && Body() == Write(old(Body()), Text(value))
    {
      hide Store16, Splice;
      if !CanAdd(|value| + 2) || |value| > MAX_STRING {
        return;
      }
      Add16(|value|);
      Store(value);
      SpliceTwice(old(buffer[..]), old(position), Store16(|value|), value);
      if old(Writing()) {
        PutExtends(Store16(|value|) + value);
      }
    }

    method AddBytes(bytes: seq<byte>)
      requires Valid()
      modifies this, buffer
      ensures if old(CanAdd(|bytes|)) && |bytes| <= MAX_STRING then Put(bytes) else unchanged(this, buffer)
      ensures old(Writing()) ==> Writing() && Body() == Write(old(Body()), Raw(bytes))
    {
      if !CanAdd(|bytes|) || |bytes| > MAX_STRING {
        return;
      }
      Store(bytes);
      if old(Writing()) {
        PutExtends(bytes);
      }
    }

    /** Padding lands at the cursor and counts, but the cursor stays. */
    method AddPaddingBytes(n: nat)
      requires Valid()
      modifies this`length, buffer
      ensures buffer[..] == if CanAdd(n) then Splice(old(buffer[..]), position, Padding(n)) else old(buffer[..])
      ensures length == if CanAdd(n) then (old(length) + n) % 0x1_0000 else old(length)
    {
      if CanAdd(n) {
        Memcpy(buffer, position, Padding(n));
        length := (length + n) % 0x1_0000;
      }
    }

    /** What a read of `n` bytes does. */
    twostate predicate Took(n: nat)
      reads this
    {
      && length == old(length)
      && position == (if old(Readable(n)) then old(position) + n else old(position))
      && overrun == (old(overrun) || !old(Readable(n)))
    }

    /** Inside a received message, a read takes the next unread bytes, or
        overruns when there are not enough. */
    twostate lemma TookNext(n: nat)
      requires old(Reading()) && Took(n) && unchanged(buffer)
      ensures Reading() && Unread() == Take(old(Unread()), n).1
      ensures old(Readable(n)) <==> n <= |old(Unread()).rest|
      ensures old(Readable(n)) ==> Take(old(Unread()), n).0 == old(buffer[position..position + n])
    {
    }

    method CanRead(size: nat) returns (ok: bool)
      modifies this`overrun
      ensures ok == old(Readable(size))
      ensures overrun == (old(overrun) || !ok)
    {
      ok := position + size <= length + RESERVED && size < MAX_SIZE - position;
      if !ok {
        overrun := true;
      }
    }

    method GetByte() returns (r: byte)
      requires Valid()
      modifies this
      ensures Took(1) && (!old(Readable(1)) ==> r == 0)
      ensures old(Readable(1)) ==> r == buffer[old(position)]
      ensures old(Reading()) ==> Reading() && (r, Unread()) == ReadByte(old(Unread()))
    {
      r := 0;
      var ok := CanRead(1);
      if ok {
        r := buffer[position];
        position := position + 1;
      }
      if old(Reading()) {
        TookNext(1);
      }
    }

    /** `get<uint16_t>` */
    method Get16() returns (r: u16)
      requires Valid()
      modifies this
      ensures Took(2) && (!old(Readable(2)) ==> r == 0)
      ensures old(Readable(2)) ==> r == Load16(buffer[old(position)..old(position) + 2])
      ensures old(Reading()) ==> Reading() && (r, Unread()) == Read16(old(Unread()))
    {
      r := 0;
      var ok := CanRead(2);
      if ok {
        r := Load16(buffer[position..position + 2]);
        position := position + 2;
      }
      if old(Reading()) {
        TookNext(2);
      }
    }

    /** `get<uint32_t>` */
    method Get32() returns (r: u32)
      requires Valid()
      modifies this
      ensures Took(4) && (!old(Readable(4)) ==> r == 0)
      ensures old(Readable(4)) ==> r == Load32(buffer[old(position)..old(position) + 4])
      ensures old(Reading()) ==> Reading() && (r, Unread()) == Read32(old(Unread()))
    {
      r := 0;
      var ok := CanRead(4);
      if ok {
        r := Load32(buffer[position..position + 4]);
        position := position + 4;
      }
      if old(Reading()) {
        TookNext(4);
      }
    }

    /** `get<uint64_t>` */
    method Get64() returns (r: u64)
      requires Valid()
      modifies this
      ensures Took(8) && (!old(Readable(8)) ==> r == 0)
      ensures old(Readable(8)) ==> r == Load64(buffer[old(position)..old(position) + 8])
      ensures old(Reading()) ==> Reading() && (r, Unread()) == Read64(old(Unread()))
    {
      r := 0;
      var ok := CanRead(8);
      if ok {
        r := Load64(buffer[position..position + 8]);
        position := position + 8;
      }
      if old(Reading()) {
        TookNext(8);
      }
    }

    /** `getString(stringLen)`; a length of 0 asks for the one in the message.
        With the cursor beyond the message nothing can be read. */
    method GetString(stringLen: u16) returns (r: seq<byte>)
      requires Valid()
      modifies this
      ensures length == old(length)
      ensures
        var stored := stringLen == 0 && old(Readable(2));
        var n: int := if stored then Load16(old(buffer[position..position + 2])) else stringLen;
        var p: int := old(position) + if stored then 2 else 0;
        var ok := p + n <= length + RESERVED && n < MAX_SIZE - p;
        && r == (if ok then buffer[p..p + n] else [])
        && position == (if ok then p + n else p)
        && overrun == (old(overrun) || !ok || (stringLen == 0 && !stored))
      ensures old(Reading()) ==>
                && Reading()
                && (r, Unread()) == if stringLen == 0 then ReadString(old(Unread())) else Take(old(Unread()), stringLen)
    {
      hide Load16;
      var n := stringLen;
      if n == 0 {
        n := Get16();
      }
      label Body:
      var ok := CanRead(n);
      r := [];
      if ok {
        r := buffer[position..position + n];
        position := position + n;
      }
      if old(Reading()) {
        TookNext@Body(n);
      }
    }

    method SkipBytes(count: int)
      requires -0x8000 <= count < 0x8000
      modifies this`position
      ensures position == (old(position) + count) % 0x1_0000
    {
      position := (position + count) % 0x1_0000;
    }
  }

  function Padding(n: nat): (r: seq<byte>)
    ensures |r| == n && forall i | 0 <= i < n :: r[i] == 0x33
  {
    seq(n, _ => 0x33)
  }
}
