/** The first packet of a connection: `Protocol::authenticate`
    (src/network/protocol.cpp) up to the look-up of the account. */
module Logins {
  import opened Adler
  import opened Fields
  import opened Frames
  import opened NetworkMessages
  import opened Words
  import opened Xtea

  type Window = s: seq<byte> | |s| == 128 witness seq(128, _ => 0)

  /** How an attempt to log in ends before the database is asked. All but
      `Refused` set the key, and all but `Credentials` disconnect. */
  datatype Attempt =
    | Refused
    | TooOld(key: Key)
    | NoEmail(key: Key)
    | NoPassword(key: Key)
    | Credentials(key: Key, email: seq<byte>, password: seq<byte>)

  function ReadKey(r: Reader): (Key, Reader) {
    var k0 := Read32(r);
    var k1 := Read32(k0.1);
    var k2 := Read32(k1.1);
    var k3 := Read32(k2.1);
    ([k0.0, k1.0, k2.0, k3.0], k3.1)
  }

  /** What is made of the rest, the key being set. */
  function Judge(key: Key, r: Reader, version: u16, versionMin: u16): Attempt {
    if version < versionMin then TooOld(key)
    else
      var email := ReadString(r);
      if email.0 == [] then NoEmail(key)
      else
        var password := ReadString(email.1);
        if password.0 == [] then NoPassword(key) else Credentials(key, email.0, password.0)
  }

  /** The packet as it lies in the buffer `b`, the cursor behind the protocol's
      number. The message ends at `length`, but its reader may go on for 8 bytes. */
  function Attempted(b: seq<byte>, position: nat, length: nat, overrun: bool, rsa: Window -> Window,
      versionMin: u16): Attempt
    requires length + RESERVED <= |b|
  {
    var p := position + 21;
    if length < p + 128 then Refused
    else
      var plain := rsa(b[p..p + 128]);
      if plain[0] != 0 then Refused
      else
        var k := ReadKey(Reader(plain[1..] + b[p + 128..length + RESERVED], overrun));
        Judge(k.0, k.1, Load16(b[position + 2..position + 4]), versionMin)
  }

  /** `RSA::decrypt`, with `rsa` for the inverse of the key. */
  method DecryptRsa(msg: NetworkMessage, rsa: Window -> Window) returns (ok: bool)
    requires msg.Valid() && msg.length < FRAME_LIMIT + 2
    modifies msg, msg.buffer
    ensures msg.length == old(msg.length) && (ok ==> msg.length >= old(msg.position) + 128)
    ensures msg.length >= old(msg.position) + 128 ==>
              var p := old(msg.position) as int;
              var plain := rsa(old(msg.buffer[..])[p..p + 128]);
              && ok == (plain[0] == 0) && msg.overrun == old(msg.overrun)
              && msg.Reading() && msg.Unread().rest == plain[1..] + old(msg.buffer[..])[p + 128..msg.length + RESERVED]
  {
    if msg.length - msg.position < 128 {
      return false;
    }
    ghost var p: int := msg.position;
    var plain := rsa(msg.buffer[msg.position..msg.position + 128]);
    assert msg.buffer[p..p + 128] == msg.buffer[..][p..p + 128];
    Memcpy(msg.buffer, msg.position, plain);
    var first := msg.GetByte();
    assert msg.buffer[p] == plain[0] && msg.buffer[p + 1..p + 128] == plain[1..];
    ok := first == 0;
  }

  method Authenticate(msg: NetworkMessage, rsa: Window -> Window, versionMin: u16) returns (a: Attempt)
    requires msg.Reading() && msg.position < 8 && msg.length < FRAME_LIMIT + 2
    modifies msg, msg.buffer
    ensures a == Attempted(old(msg.buffer[..]), old(msg.position), old(msg.length), old(msg.overrun), rsa, versionMin)
  {
    hide Judge, ReadKey, Load16;
    var version := TakeVersion(msg);
    assert msg.buffer[..] == old(msg.buffer[..]);
    var ok := DecryptRsa(msg, rsa);
    if !ok {
      return Refused;
    }
    var key := TakeKey(msg);
    a := Answer(msg, key, version, versionMin);
  }

  /** The start of the packet. One that is too short for the window may also be
      too short for the version. */
  method TakeVersion(msg: NetworkMessage) returns (version: u16)
    requires msg.Reading() && msg.position < 8 && msg.length < FRAME_LIMIT + 2
    modifies msg
    ensures msg.length == old(msg.length)
    ensures old(msg.position) + 19 <= msg.position as int <= old(msg.position) + 21
    ensures msg.length >= old(msg.position) + 140 ==>
              && msg.position == old(msg.position) + 21 && msg.overrun == old(msg.overrun)
              && version == Load16(old(msg.buffer[..])[old(msg.position) + 2..old(msg.position) + 4])
  {
    hide Load16;
    ghost var start: int := msg.position;
    msg.SkipBytes(2);
    assert msg.position == start + 2;
    assert start + 4 <= MAX_SIZE ==> msg.buffer[start + 2..start + 4] == msg.buffer[..][start + 2..start + 4];
    version := msg.Get16();
    msg.SkipBytes(17);
  }

  method TakeKey(msg: NetworkMessage) returns (key: Key)
    requires msg.Reading()
    modifies msg
    ensures msg.Reading() && (key, msg.Unread()) == ReadKey(old(msg.Unread()))
  {
    hide Read32;
    var k0 := msg.Get32();
    var k1 := msg.Get32();
    var k2 := msg.Get32();
    var k3 := msg.Get32();
    key := [k0, k1, k2, k3];
  }

  method Answer(msg: NetworkMessage, key: Key, version: u16, versionMin: u16) returns (a: Attempt)
    requires msg.Reading()
    modifies msg
    ensures a == Judge(key, old(msg.Unread()), version, versionMin)
  {
    hide ReadString;
    if version < versionMin {
      return TooOld(key);
    }
    var email := msg.GetString(0);
    if email == [] {
      return NoEmail(key);
    }
    var password := msg.GetString(0);
    a := if password == [] then NoPassword(key) else Credentials(key, email, password);
  }

  function LoginFields(key: Key, email: seq<byte>, password: seq<byte>): seq<Field> {
    [U32(key[0]), U32(key[1]), U32(key[2]), U32(key[3]), Text(email), Text(password)]
  }

  lemma ReadWord(w: u32, rest: seq<byte>)
    ensures Read32(Reader(Store32(w) + rest, false)) == (w, Reader(rest, false))
  {
    ReadField(Reader(Store32(w) + rest, false), U32(w), rest);
  }

  lemma ReadKeyBack(key: Key, rest: seq<byte>)
    ensures ReadKey(Reader(Store32(key[0]) + (Store32(key[1]) + (Store32(key[2]) + (Store32(key[3]) + rest))), false))
            == (key, Reader(rest, false))
  {
    hide Read32, Store32;
    ReadWord(key[0], Store32(key[1]) + (Store32(key[2]) + (Store32(key[3]) + rest)));
    ReadWord(key[1], Store32(key[2]) + (Store32(key[3]) + rest));
    ReadWord(key[2], Store32(key[3]) + rest);
    ReadWord(key[3], rest);
    assert key == [key[0], key[1], key[2], key[3]];
  }

  lemma JudgeBack(key: Key, email: seq<byte>, password: seq<byte>, rest: seq<byte>, version: u16, versionMin: u16)
    requires |email| <= MAX_STRING && |password| <= MAX_STRING
    ensures Judge(key, Reader(Text(email).Bytes() + (Text(password).Bytes() + rest), false), version, versionMin)
            == if version < versionMin then TooOld(key)
               else if email == [] then NoEmail(key)
               else if password == [] then NoPassword(key)
               else Credentials(key, email, password)
  {
    hide ReadString, Field.Bytes;
    ReadField(Reader(Text(email).Bytes() + (Text(password).Bytes() + rest), false), Text(email),
        Text(password).Bytes() + rest);
    ReadField(Reader(Text(password).Bytes() + rest, false), Text(password), rest);
  }

  lemma FirstAccepted(body: seq<byte>, f: Field, fs: seq<Field>)
    requires AllAccepted(body, [f] + fs)
    ensures f.Writable() && AllAccepted(body + f.Bytes(), fs)
            && WriteAll(body, [f] + fs) == WriteAll(body + f.Bytes(), fs)
  {
    assert ([f] + fs)[1..] == fs;
  }

  lemma FieldsInTurn(key: Key, email: seq<byte>, password: seq<byte>, rest: seq<byte>)
    requires AllAccepted([], LoginFields(key, email, password))
    ensures |email| <= MAX_STRING && |password| <= MAX_STRING
    ensures WriteAll([], LoginFields(key, email, password)) + rest
            == Store32(key[0]) + (Store32(key[1]) + (Store32(key[2]) + (Store32(key[3])
               + (Text(email).Bytes() + (Text(password).Bytes() + rest)))))
  {
    hide AllAccepted, WriteAll;
    var f0, f1, f2, f3, f4, f5 := U32(key[0]), U32(key[1]), U32(key[2]), U32(key[3]), Text(email), Text(password);
    var b1 := [] + Store32(key[0]);
    var b2 := b1 + Store32(key[1]);
    var b3 := b2 + Store32(key[2]);
    var b4 := b3 + Store32(key[3]);
    assert LoginFields(key, email, password) == [f0] + [f1, f2, f3, f4, f5];
    FirstAccepted([], f0, [f1, f2, f3, f4, f5]);
    assert [f1, f2, f3, f4, f5] == [f1] + [f2, f3, f4, f5];
    FirstAccepted(b1, f1, [f2, f3, f4, f5]);
    assert [f2, f3, f4, f5] == [f2] + [f3, f4, f5];
    FirstAccepted(b2, f2, [f3, f4, f5]);
    assert [f3, f4, f5] == [f3] + [f4, f5];
    FirstAccepted(b3, f3, [f4, f5]);
    assert [f4, f5] == [f4] + [f5];
    FirstAccepted(b4, f4, [f5]);
    assert [f5] == [f5] + [];
    var b5 := b4 + f4.Bytes();
    FirstAccepted(b5, f5, []);
    NoFields(b5 + f5.Bytes());
  }

  /** What a client writes into its window, byte by byte. */
  lemma WindowLayout(key: Key, email: seq<byte>, password: seq<byte>)
    requires AllAccepted([], LoginFields(key, email, password))
    ensures |email| <= MAX_STRING && |password| <= MAX_STRING
    ensures WriteAll([], LoginFields(key, email, password))
            == Store32(key[0]) + Store32(key[1]) + Store32(key[2]) + Store32(key[3])
               + (Store16(|email|) + email) + (Store16(|password|) + password)
  {
    hide Store32, Store16, WriteAll, LoginFields, AllAccepted;
    FieldsInTurn(key, email, password, []);
    var w := Store32(key[0]) + Store32(key[1]) + Store32(key[2]) + Store32(key[3]);
    var x, y := Store16(|email|) + email, Store16(|password|) + password;
    assert WriteAll([], LoginFields(key, email, password)) + []
           == Store32(key[0]) + (Store32(key[1]) + (Store32(key[2]) + (Store32(key[3]) + (x + (y + [])))));
    assert y + [] == y;
    assert w + x + y == Store32(key[0]) + (Store32(key[1]) + (Store32(key[2]) + (Store32(key[3]) + (x + y))));
  }

  lemma NoFields(body: seq<byte>)
    ensures WriteAll(body, []) == body
  {
  }

  /** A client's packet, wherever it lies and whatever the buffer holds behind
      it: the key, the address and the password that were written are those that
      come out, and the attempt is refused for the stated reasons only. */
  lemma LoginRoundTrip(b: seq<byte>, position: nat, length: nat, rsa: Window -> Window, version: u16, versionMin: u16,
                       key: Key, email: seq<byte>, password: seq<byte>, filler: seq<byte>)
    requires position + 149 <= length && length + RESERVED <= |b|
    requires AllAccepted([], LoginFields(key, email, password))
    requires b[position + 2..position + 4] == Store16(version)
    requires rsa(b[position + 21..position + 149]) == [0] + WriteAll([], LoginFields(key, email, password)) + filler
    ensures Attempted(b, position, length, false, rsa, versionMin)
            == if version < versionMin then TooOld(key)
               else if email == [] then NoEmail(key)
               else if password == [] then NoPassword(key)
               else Credentials(key, email, password)
  {
    hide ReadKey, Judge, Store16, Load16, WriteAll, AllAccepted, LoginFields;
    var plain := rsa(b[position + 21..position + 149]);
    var written := WriteAll([], LoginFields(key, email, password));
    var behind := b[position + 149..length + RESERVED];
    assert plain[1..] + behind == written + (filler + behind);
    LoadStore16(version);
    FieldsInTurn(key, email, password, filler + behind);
    ReadKeyBack(key, Text(email).Bytes() + (Text(password).Bytes() + (filler + behind)));
    JudgeBack(key, email, password, filler + behind, version, versionMin);
  }

  /** What becomes of the first content of a connection, with the 8 bytes that
      the buffer holds behind it. Behind the checksum, if it is right, comes the
      protocol's number. */
  function FirstPacket(content: seq<byte>, behind: seq<byte>, rsa: Window -> Window, versionMin: u16): Attempt
    requires |behind| == RESERVED
  {
    var at := if |content| > 4 && Load32(content[..4]) == Checksum(content[4..]) then 4 else 0;
    Attempted([0, 0] + content + behind, at + 3, |content| + 2, false, rsa, versionMin)
  }

  /** An attempt depends on the packet and the 8 bytes behind it alone. */
  lemma AttemptedWithin(b: seq<byte>, b': seq<byte>, position: nat, length: nat, rsa: Window -> Window, versionMin: u16)
    requires 2 <= position <= length + RESERVED <= |b| && length + RESERVED <= |b'|
    requires b[2..length + RESERVED] == b'[2..length + RESERVED]
    ensures Attempted(b, position, length, false, rsa, versionMin)
            == Attempted(b', position, length, false, rsa, versionMin)
  {
    hide ReadKey, Judge, Load16;
    var p, end := position + 21, length + RESERVED;
    if p + 128 <= length {
      SliceOfSlice(b, 2, end, p - 2, p + 126);
      SliceOfSlice(b', 2, end, p - 2, p + 126);
      SliceOfSlice(b, 2, end, p + 126, end - 2);
      SliceOfSlice(b', 2, end, p + 126, end - 2);
      SliceOfSlice(b, 2, end, position, position + 2);
      SliceOfSlice(b', 2, end, position, position + 2);
    }
  }

  /** A client's first content: checksum, protocol's number, operating system,
      version, what is skipped, and the encrypted window. */
  function ClientPacket(number: byte, system: seq<byte>, version: u16, skipped: seq<byte>, window: Window)
      : (r: seq<byte>)
    requires |system| == 2 && |skipped| == 17
    ensures |r| == 154
  {
    var packet := [number] + system + Store16(version) + skipped + window;
    Store32(Checksum(packet)) + packet
  }

  lemma ClientPacketParts(number: byte, system: seq<byte>, version: u16, skipped: seq<byte>, window: Window,
      behind: seq<byte>)
    requires |system| == 2 && |skipped| == 17 && |behind| == RESERVED
    ensures var content := ClientPacket(number, system, version, skipped, window);
            var b := [0, 0] + content + behind;
            && Load32(content[..4]) == Checksum(content[4..])
            && b[9..11] == Store16(version) && b[28..156] == window
  {
    hide Checksum, Store16, Store32, Load32;
    var packet := [number] + system + Store16(version) + skipped + window;
    LoadStore32(Checksum(packet));
    assert ClientPacket(number, system, version, skipped, window)[4..] == packet;
  }

  /** The client logs in with exactly what it wrote into the window, whatever the
      buffer holds behind the packet. */
  lemma ClientLogsIn(
      number: byte, system: seq<byte>, version: u16, skipped: seq<byte>, window: Window, behind: seq<byte>,
      rsa: Window -> Window, versionMin: u16, key: Key, email: seq<byte>, password: seq<byte>, filler: seq<byte>)
    requires |system| == 2 && |skipped| == 17 && |behind| == RESERVED
    requires AllAccepted([], LoginFields(key, email, password))
    requires rsa(window) == [0] + WriteAll([], LoginFields(key, email, password)) + filler
    ensures FirstPacket(ClientPacket(number, system, version, skipped, window), behind, rsa, versionMin)
            == if version < versionMin then TooOld(key)
               else if email == [] then NoEmail(key)
               else if password == [] then NoPassword(key)
               else Credentials(key, email, password)
  {
    hide Attempted, ClientPacket, Checksum, Load32, Store16, AllAccepted, WriteAll, LoginFields;
    ClientPacketParts(number, system, version, skipped, window, behind);
    var content := ClientPacket(number, system, version, skipped, window);
    LoginRoundTrip([0, 0] + content + behind, 7, 156, rsa, version, versionMin, key, email, password, filler);
  }

  /** The key that is set afterwards. */
  function KeyAfter(a: Attempt, before: Key): Key {
    if a.Refused? then before else a.key
  }

  /** A client whose window decrypts has set its key, also when its version, its
      address or its password is then turned down: the answer goes out under it. */
  lemma ClientSetsKey(number: byte, system: seq<byte>, version: u16, skipped: seq<byte>, window: Window,
                      behind: seq<byte>, rsa: Window -> Window, versionMin: u16, key: Key, before: Key,
                      email: seq<byte>, password: seq<byte>, filler: seq<byte>)
    requires |system| == 2 && |skipped| == 17 && |behind| == RESERVED
    requires AllAccepted([], LoginFields(key, email, password))
    requires rsa(window) == [0] + WriteAll([], LoginFields(key, email, password)) + filler
    ensures var a := FirstPacket(ClientPacket(number, system, version, skipped, window), behind, rsa, versionMin);
            KeyAfter(a, before) == key
  {
    hide FirstPacket, ClientPacket, AllAccepted, WriteAll, LoginFields;
    ClientLogsIn(number, system, version, skipped, window, behind, rsa, versionMin, key, email, password, filler);
  }

  /** What is refused leaves the key as it was: a packet with less than a window
      behind the skipped bytes, and one whose window decrypts to a first byte
      other than 0. */
  lemma RefusedKeepsKey(b: seq<byte>, position: nat, length: nat, rsa: Window -> Window, versionMin: u16, before: Key)
    requires length + RESERVED <= |b|
    ensures var a := Attempted(b, position, length, false, rsa, versionMin);
            && (a == Refused <==> length < position + 149 || rsa(b[position + 21..position + 149])[0] != 0)
            && (a == Refused ==> KeyAfter(a, before) == before)
  {
    hide ReadKey, Load16;
  }
}
