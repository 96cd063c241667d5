/** `Protocol::addCharacterList` (src/network/protocol.cpp), the one message
    whose number of fields depends on its contents, and its reading. */
module CharacterLists {
  import opened Fields
  import opened NetworkMessages
  import opened Words

  const CHARACTER_LIST: byte := 4

  datatype Character = Character(
    name: seq<byte>, instanceName: seq<byte>, instanceId: seq<byte>, level: u16, autoReconnect: bool)

  /** The part of an account that is listed; `premiumEnd` is a 64-bit time. */
  datatype Account = Account(characters: seq<Character>, premiumEnd: nat)

  function Flag(b: bool): byte {
    if b then 1 else 0
  }

  function FieldsOf(c: Character): seq<Field> {
    [Text(c.name), Text(c.instanceName), Text(c.instanceId), U16(c.level), U8(Flag(c.autoReconnect))]
  }

  function CharacterFields(cs: seq<Character>): seq<Field> {
    if cs == [] then [] else FieldsOf(cs[0]) + CharacterFields(cs[1..])
  }

  function PremiumFields(premiumEnd: nat, now: nat): seq<Field> {
    [U8(0), U8(Flag(premiumEnd > now)), U32(premiumEnd % 0x1_0000_0000)]
  }

  /** The list as fields; the number of characters is cut to a byte. */
  function ListFields(a: Account, now: nat): seq<Field> {
    [U8(CHARACTER_LIST), U8(|a.characters| % 0x100)] + CharacterFields(a.characters) + PremiumFields(a.premiumEnd, now)
  }

  lemma {:induction false} WriteAllAppend(body: seq<byte>, fs: seq<Field>, gs: seq<Field>)
    ensures WriteAll(body, fs + gs) == WriteAll(WriteAll(body, fs), gs)
    decreases |fs|
  {
    if fs == [] {
      assert fs + gs == gs;
    } else {
      assert (fs + gs)[1..] == fs[1..] + gs;
      WriteAllAppend(Write(body, fs[0]), fs[1..], gs);
    }
  }

  method AddCharacter(msg: NetworkMessage, c: Character)
    requires msg.Writing()
    modifies msg, msg.buffer
    ensures msg.Writing() && msg.Body() == WriteAll(old(msg.Body()), FieldsOf(c))
  {
    hide Write;
    ghost var body := msg.Body();
    ghost var fs := FieldsOf(c);
    msg.AddString(c.name);
    msg.AddString(c.instanceName);
    msg.AddString(c.instanceId);
    msg.Add16(c.level);
    msg.AddByte(Flag(c.autoReconnect));
    WriteFive(body, fs[0], fs[1], fs[2], fs[3], fs[4]);
  }

  lemma WriteFive(body: seq<byte>, a: Field, b: Field, c: Field, d: Field, e: Field)
    ensures WriteAll(body, [a, b, c, d, e]) == Write(Write(Write(Write(Write(body, a), b), c), d), e)
  {
    hide Write;
    WriteThree(Write(Write(body, a), b), c, d, e);
    assert [a, b, c, d, e][1..] == [b, c, d, e] && [b, c, d, e][1..] == [c, d, e];
    assert WriteAll(body, [a, b, c, d, e]) == WriteAll(Write(body, a), [b, c, d, e]);
  }

  lemma WriteThree(body: seq<byte>, a: Field, b: Field, c: Field)
    ensures WriteAll(body, [a, b, c]) == Write(Write(Write(body, a), b), c)
  {
    hide Write;
    assert [a, b, c][1..] == [b, c] && [b, c][1..] == [c] && [c][1..] == [];
    assert WriteAll(body, [a, b, c]) == WriteAll(Write(body, a), [b, c]);
    assert WriteAll(Write(body, a), [b, c]) == WriteAll(Write(Write(body, a), b), [c]);
  }

  method AddCharacterList(msg: NetworkMessage, a: Account, now: nat)
    requires msg.Writing()
    modifies msg, msg.buffer
    ensures msg.Writing() && msg.Body() == WriteAll(old(msg.Body()), ListFields(a, now))
  {
    hide Write, FieldsOf;
    ghost var body := msg.Body();
    ghost var head := [U8(CHARACTER_LIST), U8(|a.characters| % 0x100)];
    msg.AddByte(CHARACTER_LIST);
    msg.AddByte(|a.characters| % 0x100);
    assert msg.Body() == WriteAll(body, head) by {
      assert head[1..] == [head[1]] && [head[1]][1..] == [];
      assert WriteAll(body, head) == WriteAll(Write(body, head[0]), [head[1]]);
    }
    ghost var start := msg.Body();
    var i := 0;
    while i < |a.characters|
      invariant i <= |a.characters| && msg.Writing()
      invariant WriteAll(start, CharacterFields(a.characters))
                == WriteAll(msg.Body(), CharacterFields(a.characters[i..]))
    {
      WriteAllAppend(msg.Body(), FieldsOf(a.characters[i]), CharacterFields(a.characters[i + 1..]));
      assert a.characters[i..][1..] == a.characters[i + 1..];
      AddCharacter(msg, a.characters[i]);
      i := i + 1;
    }
    WriteAllAppend(body, head, CharacterFields(a.characters));
    WriteAllAppend(body, head + CharacterFields(a.characters), PremiumFields(a.premiumEnd, now));
    ghost var fs := PremiumFields(a.premiumEnd, now);
    WriteThree(msg.Body(), fs[0], fs[1], fs[2]);
    msg.AddByte(0);
    msg.AddByte(Flag(a.premiumEnd > now));
    msg.Add32(a.premiumEnd % 0x1_0000_0000);
  }

  function ReadCharacter(r: Reader): (Character, Reader) {
    var a := ReadString(r);
    var b := ReadString(a.1);
    var c := ReadString(b.1);
    var d := Read16(c.1);
    var e := ReadByte(d.1);
    (Character(a.0, b.0, c.0, d.0, e.0 != 0), e.1)
  }

  function ReadCharacters(r: Reader, n: nat): (t: (seq<Character>, Reader))
    ensures |t.0| == n
    decreases n
  {
    if n == 0 then ([], r) else
      var c := ReadCharacter(r);
      var rest := ReadCharacters(c.1, n - 1);
      ([c.0] + rest.0, rest.1)
  }

  /** The receiver's side of the list: opcode, count, characters, and the three
      premium fields. */
  function ReadCharacterList(r: Reader): (byte, seq<Character>, byte, u32, Reader) {
    var opcode := ReadByte(r);
    var count := ReadByte(opcode.1);
    var characters := ReadCharacters(count.1, count.0);
    var zero := ReadByte(characters.1);
    var premium := ReadByte(zero.1);
    var end := Read32(premium.1);
    (opcode.0, characters.0, premium.0, end.0, end.1)
  }

  lemma {:induction false} ReadAllAppend(r: Reader, ks: seq<FieldKind>, ls: seq<FieldKind>)
    ensures var t := ReadAll(r, ks);
            var u := ReadAll(t.1, ls);
            ReadAll(r, ks + ls) == (t.0 + u.0, u.1)
    ensures |ReadAll(r, ks).0| == |ks|
    decreases |ks|
  {
    hide Read;
    if ks == [] {
      assert ks + ls == ls;
      assert [] + ReadAll(r, ls).0 == ReadAll(r, ls).0;
    } else {
      assert (ks + ls)[0] == ks[0] && (ks + ls)[1..] == ks[1..] + ls;
      var first := Read(r, ks[0]);
      ReadAllAppend(first.1, ks[1..], ls);
      var t := ReadAll(first.1, ks[1..]);
      assert [first.0] + (t.0 + ReadAll(t.1, ls).0) == ([first.0] + t.0) + ReadAll(t.1, ls).0;
    }
  }

  lemma {:induction false} KindsAppend(fs: seq<Field>, gs: seq<Field>)
    ensures Kinds(fs + gs) == Kinds(fs) + Kinds(gs) && |Kinds(fs)| == |fs|
    decreases |fs|
  {
    if fs == [] {
      assert fs + gs == gs;
    } else {
      assert (fs + gs)[0] == fs[0] && (fs + gs)[1..] == fs[1..] + gs;
      KindsAppend(fs[1..], gs);
      assert Kinds(fs) + Kinds(gs) == [fs[0].Kind()] + (Kinds(fs[1..]) + Kinds(gs));
    }
  }

  /** If `fs + gs` is what reading gives, then `fs` and `gs` are, in turn. */
  lemma ReadInTurn(r: Reader, fs: seq<Field>, gs: seq<Field>)
    requires ReadAll(r, Kinds(fs + gs)).0 == fs + gs
    ensures ReadAll(r, Kinds(fs)).0 == fs
    ensures ReadAll(ReadAll(r, Kinds(fs)).1, Kinds(gs)) == (gs, ReadAll(r, Kinds(fs + gs)).1)
  {
    KindsAppend(fs, gs);
    ReadAllAppend(r, Kinds(fs), Kinds(gs));
    var t := ReadAll(r, Kinds(fs));
    var u := ReadAll(t.1, Kinds(gs));
    assert (t.0 + u.0)[..|fs|] == fs && (t.0 + u.0)[|fs|..] == gs;
  }

  /** Reading the five fields of a character gives the character. */
  lemma ReadCharacterFields(r: Reader, c: Character)
    requires ReadAll(r, Kinds(FieldsOf(c))).0 == FieldsOf(c)
    ensures ReadCharacter(r) == (c, ReadAll(r, Kinds(FieldsOf(c))).1)
  {
    hide ReadString, Read16, ReadByte;
    assert Kinds(FieldsOf(c)) == [String] + ([String] + ([String] + ([Word] + ([Byte] + [])))) by {
      KindsOfFive(Text(c.name), Text(c.instanceName), Text(c.instanceId), U16(c.level), U8(Flag(c.autoReconnect)));
    }
    var r1 := Read(r, String);
    var r2 := Read(r1.1, String);
    var r3 := Read(r2.1, String);
    var r4 := Read(r3.1, Word);
    var r5 := Read(r4.1, Byte);
    ReadOne(r, String, [String] + ([String] + ([Word] + ([Byte] + []))));
    ReadOne(r1.1, String, [String] + ([Word] + ([Byte] + [])));
    ReadOne(r2.1, String, [Word] + ([Byte] + []));
    ReadOne(r3.1, Word, [Byte] + []);
    ReadOne(r4.1, Byte, []);
    assert [r1.0] + ([r2.0] + ([r3.0] + ([r4.0] + ([r5.0] + [])))) == [r1.0, r2.0, r3.0, r4.0, r5.0];
    assert ReadAll(r5.1, []) == ([], r5.1);
    assert ReadAll(r, Kinds(FieldsOf(c))) == ([r1.0, r2.0, r3.0, r4.0, r5.0], r5.1);
  }

  lemma KindsOfFive(a: Field, b: Field, c: Field, d: Field, e: Field)
    ensures Kinds([a, b, c, d, e]) == [a.Kind(), b.Kind(), c.Kind(), d.Kind(), e.Kind()]
  {
    hide Field.Kind;
    assert [a, b, c, d, e] == [a] + ([b] + ([c] + ([d] + [e])));
    KindsAppend([a], [b] + ([c] + ([d] + [e])));
    KindsAppend([b], [c] + ([d] + [e]));
    KindsAppend([c], [d] + [e]);
    KindsAppend([d], [e]);
  }

  lemma {:induction false} ReadCharacterSequence(r: Reader, cs: seq<Character>)
    requires ReadAll(r, Kinds(CharacterFields(cs))).0 == CharacterFields(cs)
    ensures ReadCharacters(r, |cs|) == (cs, ReadAll(r, Kinds(CharacterFields(cs))).1)
    decreases |cs|
  {
    hide ReadCharacter, FieldsOf;
    if cs != [] {
      ReadInTurn(r, FieldsOf(cs[0]), CharacterFields(cs[1..]));
      ReadCharacterFields(r, cs[0]);
      ReadCharacterSequence(ReadCharacter(r).1, cs[1..]);
      assert cs == [cs[0]] + cs[1..];
    }
  }

  /** A character list, written behind any body that can be, is read back, the
      characters, the premium data and what follows, exactly when there are at
      most 255 characters and no write was refused. */
  lemma CharacterListRoundTrip(body: seq<byte>, a: Account, now: nat, tail: seq<byte>)
    requires CanHold(|body|)
    ensures
      ReadCharacterList(Reader(WriteAll(body, ListFields(a, now))[|body|..] + tail, false)) == ListRead(a, now, tail)
      <==> |a.characters| <= 255 && AllAccepted(body, ListFields(a, now))
  {
    hide ReadCharacterList, WriteAll, AllAccepted, ListFields, ListRead;
    var r := Reader(WriteAll(body, ListFields(a, now))[|body|..] + tail, false);
    if AllAccepted(body, ListFields(a, now)) {
      AcceptedListBack(body, a, now, tail);
    } else if ReadCharacterList(r) == ListRead(a, now, tail) {
      ListConsumes(r, a, now, tail);
      WrittenSize(body, ListFields(a, now));
      assert false;
    }
  }

  /** What a reader is to get: the opcode, the characters, the premium flag and
      the end of the premium time, with `tail` left. */
  function ListRead(a: Account, now: nat, tail: seq<byte>): (byte, seq<Character>, byte, u32, Reader) {
    (CHARACTER_LIST, a.characters, Flag(a.premiumEnd > now), a.premiumEnd % 0x1_0000_0000, Reader(tail, false))
  }

  /** With every write accepted, too many characters are what can go wrong. */
  lemma AcceptedListBack(body: seq<byte>, a: Account, now: nat, tail: seq<byte>)
    requires AllAccepted(body, ListFields(a, now))
    ensures
      ReadCharacterList(Reader(WriteAll(body, ListFields(a, now))[|body|..] + tail, false)) == ListRead(a, now, tail)
      <==> |a.characters| <= 255
    ensures
      ReadCharacterList(Reader(WriteAll(body, ListFields(a, now))[|body|..] + tail, false)).1 == a.characters
      <==> |a.characters| <= 255
  {
    hide ReadCharacterList, WriteAll, AllAccepted, ListFields, ReadAll, Kinds;
    WrittenIsRead(body, ListFields(a, now), tail);
    ListBack(Reader(WriteAll(body, ListFields(a, now))[|body|..] + tail, false), a, now, tail);
  }

  /** The bytes that a character takes up. */
  function CharacterSize(c: Character): nat {
    |c.name| + |c.instanceName| + |c.instanceId| + 9
  }

  function CharactersSize(cs: seq<Character>): nat {
    if cs == [] then 0 else CharacterSize(cs[0]) + CharactersSize(cs[1..])
  }

  lemma CharacterConsumes(r: Reader)
    requires !ReadCharacter(r).1.overrun
    ensures !r.overrun && |r.rest| == CharacterSize(ReadCharacter(r).0) + |ReadCharacter(r).1.rest|
  {
    hide Load16;
  }

  lemma {:induction false} CharactersConsume(r: Reader, n: nat)
    requires !ReadCharacters(r, n).1.overrun
    ensures !r.overrun && |r.rest| == CharactersSize(ReadCharacters(r, n).0) + |ReadCharacters(r, n).1.rest|
    decreases n
  {
    hide ReadCharacter, CharacterSize;
    if n > 0 {
      var c := ReadCharacter(r);
      CharactersConsume(c.1, n - 1);
      CharacterConsumes(r);
      var rest := ReadCharacters(c.1, n - 1).0;
      assert ([c.0] + rest)[1..] == rest;
    }
  }

  lemma {:induction false} CharactersTotal(cs: seq<Character>)
    ensures TotalSize(CharacterFields(cs)) == CharactersSize(cs)
  {
    hide FieldsOf, TotalSize;
    if cs == [] {
      NoSize();
    } else {
      CharactersTotal(cs[1..]);
      TotalAppend(FieldsOf(cs[0]), CharacterFields(cs[1..]));
      CharacterTotal(cs[0]);
    }
  }

  lemma NoSize()
    ensures TotalSize([]) == 0
  {
  }

  lemma CharacterTotal(c: Character)
    ensures TotalSize(FieldsOf(c)) == CharacterSize(c)
  {
    hide TotalSize;
    var fs := FieldsOf(c);
    FewFields(fs[0], fs[1], fs[2], fs[3], fs[4]);
    TotalAppend([fs[0], fs[1]], [fs[2], fs[3], fs[4]]);
    assert fs == [fs[0], fs[1]] + [fs[2], fs[3], fs[4]];
  }

  /** What reads as the list takes exactly the size of all its fields. */
  lemma ListConsumes(r: Reader, a: Account, now: nat, tail: seq<byte>)
    requires ReadCharacterList(r) == ListRead(a, now, tail)
    ensures |r.rest| == TotalSize(ListFields(a, now)) + |tail|
  {
    hide ReadCharacters, CharacterFields, CharactersSize, TotalSize, Load32;
    var count := ReadByte(ReadByte(r).1);
    CharactersConsume(count.1, count.0);
    CharactersTotal(a.characters);
    ListTotal(a, now);
  }

  lemma ListTotal(a: Account, now: nat)
    ensures TotalSize(ListFields(a, now)) == TotalSize(CharacterFields(a.characters)) + 8
  {
    hide CharacterFields, TotalSize;
    var head, premium := [U8(CHARACTER_LIST), U8(|a.characters| % 0x100)], PremiumFields(a.premiumEnd, now);
    FewFields(head[0], head[1], premium[0], premium[1], premium[2]);
    TotalAppend(head, CharacterFields(a.characters));
    TotalAppend(head + CharacterFields(a.characters), premium);
  }

  lemma ListBack(r: Reader, a: Account, now: nat, tail: seq<byte>)
    requires ReadAll(r, Kinds(ListFields(a, now))) == (ListFields(a, now), Reader(tail, false))
    ensures ReadCharacterList(r).1 == a.characters <==> |a.characters| <= 255
    ensures |a.characters| <= 255 ==> ReadCharacterList(r) == ListRead(a, now, tail)
  {
    hide ReadByte, Read32, ReadCharacters, CharacterFields, ReadAll, Kinds;
    var premium := PremiumFields(a.premiumEnd, now);
    var head := [U8(CHARACTER_LIST), U8(|a.characters| % 0x100)];
    ReadInTurn(r, head + CharacterFields(a.characters), premium);
    ReadInTurn(r, head, CharacterFields(a.characters));
    ReadHead(r, head[0], head[1]);
    var r1 := ReadAll(r, Kinds(head)).1;
    if |a.characters| <= 255 {
      ReadCharacterSequence(r1, a.characters);
      ReadPremium(ReadAll(r1, Kinds(CharacterFields(a.characters))).1, premium[0], premium[1], premium[2]);
    }
  }

  /** One character with a name of more than 8192 bytes is enough for a write
      that is refused without a sign, and then not even the rest is read back. */
  lemma NameTooLong(body: seq<byte>, c: Character, now: nat, tail: seq<byte>)
    requires CanHold(|body|) && |c.name| > MAX_STRING
    ensures
      var a := Account([c], 0);
      ReadCharacterList(Reader(WriteAll(body, ListFields(a, now))[|body|..] + tail, false)) != ListRead(a, now, tail)
  {
    hide ReadCharacterList, ListRead, WriteAll, AllAccepted;
    var a := Account([c], 0);
    CharacterListRoundTrip(body, a, now, tail);
    if AllAccepted(body, ListFields(a, now)) {
      assert ListFields(a, now)[2] == Text(c.name);
      AcceptedWritable(body, ListFields(a, now), 2);
      assert false;
    }
  }

  function Nameless(n: nat): seq<Character> {
    seq(n, _ => Character([], [], [], 0, false))
  }

  lemma {:induction false} TotalAppend(fs: seq<Field>, gs: seq<Field>)
    ensures TotalSize(fs + gs) == TotalSize(fs) + TotalSize(gs)
    decreases |fs|
  {
    if fs == [] {
      assert fs + gs == gs;
    } else {
      assert (fs + gs)[1..] == fs[1..] + gs;
      TotalAppend(fs[1..], gs);
    }
  }

  lemma NamelessFields(c: Character)
    requires c == Character([], [], [], 0, false)
    ensures TotalSize(FieldsOf(c)) == 9 && forall i | 0 <= i < |FieldsOf(c)| :: FieldsOf(c)[i].Writable()
  {
    CharacterTotal(c);
  }

  lemma {:induction false} NamelessSize(n: nat)
    ensures var fs := CharacterFields(Nameless(n));
            TotalSize(fs) == 9 * n && forall i | 0 <= i < |fs| :: fs[i].Writable()
  {
    hide FieldsOf;
    if n > 0 {
      assert Nameless(n)[1..] == Nameless(n - 1);
      NamelessFields(Nameless(n)[0]);
      TotalAppend(FieldsOf(Nameless(n)[0]), CharacterFields(Nameless(n - 1)));
      NamelessSize(n - 1);
    }
  }

  lemma NamelessList(n: nat, now: nat)
    ensures var fs := ListFields(Account(Nameless(n), 0), now);
            TotalSize(fs) == 9 * n + 8 && forall i | 0 <= i < |fs| :: fs[i].Writable()
  {
    hide CharacterFields, Nameless, TotalSize;
    NamelessSize(n);
    ListTotal(Account(Nameless(n), 0), now);
  }

  lemma FewFields(a: Field, b: Field, c: Field, d: Field, e: Field)
    ensures TotalSize([a, b]) == a.Size() + b.Size() && TotalSize([c, d, e]) == c.Size() + d.Size() + e.Size()
  {
    assert [a, b] == [a] + [b] && [c, d, e] == [c] + ([d] + [e]);
    TotalAppend([a], [b]);
    TotalAppend([c], [d] + [e]);
    TotalAppend([d], [e]);
  }

  /** 256 characters without a name fit, and are not what is read back. */
  lemma TooManyCharacters(body: seq<byte>, now: nat, tail: seq<byte>)
    requires CanHold(|body| + 2312)
    ensures
      var a := Account(Nameless(256), 0);
      && AllAccepted(body, ListFields(a, now))
      && ReadCharacterList(Reader(WriteAll(body, ListFields(a, now))[|body|..] + tail, false)).1 != a.characters
  {
    hide CharacterFields, Nameless, AllAccepted, ListFields, TotalSize, WriteAll, ReadCharacterList;
    var a := Account(Nameless(256), 0);
    NamelessCount(256);
    NamelessList(256, now);
    SmallAccepted(body, ListFields(a, now));
    AcceptedListBack(body, a, now, tail);
  }

  lemma NamelessCount(n: nat)
    ensures |Nameless(n)| == n
  {
  }

  lemma ReadHead(r: Reader, a: Field, b: Field)
    requires a.U8? && b.U8? && ReadAll(r, Kinds([a, b])).0 == [a, b]
    ensures var t := ReadByte(r);
            var u := ReadByte(t.1);
            U8(t.0) == a && U8(u.0) == b && u.1 == ReadAll(r, Kinds([a, b])).1
  {
    hide ReadByte;
    KindsAppend([a], [b]);
    assert [a] + [b] == [a, b];
    ReadOne(r, Byte, [Byte] + []);
    ReadOne(Read(r, Byte).1, Byte, []);
    assert Kinds([a, b]) == [Byte] + ([Byte] + []);
  }

  lemma ReadPremium(r: Reader, a: Field, b: Field, c: Field)
    requires a.U8? && b.U8? && c.U32? && ReadAll(r, Kinds([a, b, c])).0 == [a, b, c]
    ensures var t := ReadByte(r);
            var u := ReadByte(t.1);
            var v := Read32(u.1);
            U8(t.0) == a && U8(u.0) == b && U32(v.0) == c && v.1 == ReadAll(r, Kinds([a, b, c])).1
  {
    hide ReadByte, Read32;
    assert [a, b] + [c] == [a, b, c];
    ReadInTurn(r, [a, b], [c]);
    ReadHead(r, a, b);
    ReadOne(ReadAll(r, Kinds([a, b])).1, DWord, []);
    assert Kinds([c]) == [DWord] + [];
  }

  predicate Listable(c: Character) {
    |c.name| <= MAX_STRING && |c.instanceName| <= MAX_STRING && |c.instanceId| <= MAX_STRING
  }

  function CountedBytes(s: seq<byte>): seq<byte>
    requires |s| <= MAX_STRING
  {
    Store16(|s|) + s
  }

  /** A character by its bytes. */
  function CharacterBytes(c: Character): seq<byte>
    requires Listable(c)
  {
    CountedBytes(c.name) + CountedBytes(c.instanceName) + CountedBytes(c.instanceId) + Store16(c.level)
    + [if c.autoReconnect then 1 else 0]
  }

  function CharactersBytes(cs: seq<Character>): seq<byte>
    requires forall i | 0 <= i < |cs| :: Listable(cs[i])
  {
    if cs == [] then [] else CharacterBytes(cs[0]) + CharactersBytes(cs[1..])
  }

  lemma CharacterLayout(c: Character)
    requires Listable(c)
    ensures BytesOf(FieldsOf(c)) == CharacterBytes(c)
  {
    hide Store16, BytesOf;
    var fs := FieldsOf(c);
    assert fs == [fs[0]] + [fs[1]] + [fs[2]] + [fs[3]] + [fs[4]];
    BytesOfAppend([fs[0]] + [fs[1]] + [fs[2]] + [fs[3]], [fs[4]]);
    BytesOfAppend([fs[0]] + [fs[1]] + [fs[2]], [fs[3]]);
    BytesOfAppend([fs[0]] + [fs[1]], [fs[2]]);
    BytesOfAppend([fs[0]], [fs[1]]);
    BytesOfOne(fs[0]);
    BytesOfOne(fs[1]);
    BytesOfOne(fs[2]);
    BytesOfOne(fs[3]);
    BytesOfOne(fs[4]);
  }

  lemma {:induction false} CharactersLayout(cs: seq<Character>)
    requires forall i | 0 <= i < |CharacterFields(cs)| :: CharacterFields(cs)[i].Writable()
    ensures forall i | 0 <= i < |cs| :: Listable(cs[i])
    ensures BytesOf(CharacterFields(cs)) == CharactersBytes(cs)
  {
    hide CharacterBytes, BytesOf;
    if cs == [] {
      BytesOfNone();
    } else {
      var fs, gs := FieldsOf(cs[0]), CharacterFields(cs[1..]);
      assert fs + gs == CharacterFields(cs);
      assert forall i | 0 <= i < |gs| :: gs[i] == (fs + gs)[i + 5];
      assert fs[0].Writable() && fs[1].Writable() && fs[2].Writable() by {
        assert fs[0] == (fs + gs)[0] && fs[1] == (fs + gs)[1] && fs[2] == (fs + gs)[2];
      }
      CharactersLayout(cs[1..]);
      CharacterLayout(cs[0]);
      BytesOfAppend(fs, gs);
      assert forall i | 1 <= i < |cs| :: cs[i] == cs[1..][i - 1];
    }
  }

  /** An accepted list by its bytes: the opcode, the number of characters,
      each character, a zero, whether the premium time is still running, and
      its end. */
  lemma ListLayout(body: seq<byte>, a: Account, now: nat)
    requires AllAccepted(body, ListFields(a, now))
    ensures forall i | 0 <= i < |a.characters| :: Listable(a.characters[i])
    ensures WriteAll(body, ListFields(a, now)) ==
            body + ([4, |a.characters| % 0x100] + CharactersBytes(a.characters)
                    + ([0, if a.premiumEnd > now then 1 else 0] + Store32(a.premiumEnd % 0x1_0000_0000)))
  {
    hide Store32, CharactersBytes, BytesOf, WriteAll, AllAccepted, CharacterFields;
    var fs := ListFields(a, now);
    var head, middle, premium :=
      [U8(CHARACTER_LIST), U8(|a.characters| % 0x100)], CharacterFields(a.characters), PremiumFields(a.premiumEnd, now);
    forall i | 0 <= i < |fs| ensures fs[i].Writable() {
      AcceptedWritable(body, fs, i);
    }
    assert forall i | 0 <= i < |middle| :: middle[i] == fs[i + 2];
    CharactersLayout(a.characters);
    AcceptedBytes(body, fs);
    BytesOfAppend(head + middle, premium);
    BytesOfAppend(head, middle);
    BytesOfFew(head[0], head[1], premium[0], premium[1], premium[2]);
  }

  lemma BytesOfFew(a: Field, b: Field, c: Field, d: Field, e: Field)
    requires a.U8? && b.U8? && c.U8? && d.U8? && e.U32?
    ensures BytesOf([a, b]) == [a.b, b.b] && BytesOf([c, d, e]) == [c.b, d.b] + Store32(e.d)
  {
    hide BytesOf, Store32;
    BytesOfOne(a);
    BytesOfOne(b);
    BytesOfOne(c);
    BytesOfOne(d);
    BytesOfOne(e);
    BytesOfAppend([a], [b]);
    BytesOfAppend([c], [d]);
    BytesOfAppend([c] + [d], [e]);
    assert [a] + [b] == [a, b] && [c] + [d] + [e] == [c, d, e];
  }
}
