/** The texts lib/json.lua produces, as the printing of trees: a Lua value with
    its tables unfolded, each object's members in the order `pairs` visits them. */
module JsonText {
  import opened JsonValues

  datatype Tree =
    | NilTree
    | BoolTree(b: bool)
    | NumTree(n: SmallInt)
    | StrTree(s: string)
    | ArrayTree(es: seq<Tree>)
    | ObjectTree(ms: seq<Member>)

  datatype Member = Member(key: string, value: Tree)

  /** What a Lua table can hold: no nil, and no key twice. The empty table is
      an array. */
  predicate Proper(t: Tree)
    decreases t, 1
  {
    match t
    case ArrayTree(es) => ProperElements(es)
    case ObjectTree(ms) => ms != [] && ProperMembers(ms) && DistinctKeys(ms)
    case _ => true
  }

  predicate ProperElements(es: seq<Tree>)
    decreases es, 0
  {
    es == [] || (es[0] != NilTree && Proper(es[0]) && ProperElements(es[1..]))
  }

  predicate ProperMembers(ms: seq<Member>)
    decreases ms, 0
  {
    ms == [] || (ms[0].value != NilTree && Proper(ms[0].value) && ProperMembers(ms[1..]))
  }

  predicate DistinctKeys(ms: seq<Member>) {
    forall i, j | 0 <= i < j < |ms| :: ms[i].key != ms[j].key
  }

  /** The value a tree is the unfolding of. */
  function Denote(t: Tree): Value
    decreases t, 1
  {
    match t
    case NilTree => Nil
    case BoolTree(b) => Bool(b)
    case NumTree(n) => Num(Integer(n))
    case StrTree(s) => Str(s)
    case ArrayTree(es) => Table(Filled(map[], 1, es))
    case ObjectTree(ms) => Table(Assigned(map[], ms))
  }

  /** A table with `es` assigned from index `n` on. */
  function Filled(m: map<Key, Value>, n: nat, es: seq<Tree>): map<Key, Value>
    decreases es, 0
  {
    if es == [] then m else Filled(Put(m, Index(n), Denote(es[0])), n + 1, es[1..])
  }

  function Assigned(m: map<Key, Value>, ms: seq<Member>): map<Key, Value>
    decreases ms, 0
  {
    if ms == [] then m else Assigned(Put(m, Name(ms[0].key), Denote(ms[0].value)), ms[1..])
  }

  const SHORT_ESCAPES: map<char, char> :=
    map['\\' := '\\', '\"' := '\"', 8 as char := 'b', 12 as char := 'f', '\n' := 'n', '\r' := 'r', '\t' := 't']

  /** `%x` of one hexadecimal digit */
  function HexChar(d: nat): char
    requires d < 16
  {
    if d < 10 then '0' + d as char else 'a' + (d - 10) as char
  }

  /** `escape_char` on the characters the pattern of `encode_string` selects,
      and every other character as it is. */
  function Escaped(c: char): (s: string)
    ensures |s| >= 1
  {
    if c in SHORT_ESCAPES then ['\\', SHORT_ESCAPES[c]]
    else if c as int < 32 then "\\u00" + [HexChar(c as int / 16), HexChar(c as int % 16)]
    else [c]
  }

  function EscapedAll(s: string): string {
    if s == [] then [] else Escaped(s[0]) + EscapedAll(s[1..])
  }

  /** `encode_string` */
  function PrintString(s: string): string {
    "\"" + EscapedAll(s) + "\""
  }

  /** `table.concat(res, ',')` */
  function Join(pieces: seq<string>): string {
    if pieces == [] then ""
    else if |pieces| == 1 then pieces[0]
    else pieces[0] + "," + Join(pieces[1..])
  }

  function Print(t: Tree): string
    decreases t, 1
  {
    match t
    case NilTree => "null"
    case BoolTree(b) => if b then "true" else "false"
    case NumTree(n) => Decimal(n)
    case StrTree(s) => PrintString(s)
    case ArrayTree(es) => "[" + Join(PrintElements(es)) + "]"
    case ObjectTree(ms) => "{" + Join(PrintMembers(ms)) + "}"
  }

  function PrintElements(es: seq<Tree>): (r: seq<string>)
    ensures |r| == |es|
    decreases es, 0
  {
    if es == [] then [] else [Print(es[0])] + PrintElements(es[1..])
  }

  function PrintMembers(ms: seq<Member>): (r: seq<string>)
    ensures |r| == |ms|
    decreases ms, 0
  {
    if ms == [] then [] else [PrintString(ms[0].key) + ":" + Print(ms[0].value)] + PrintMembers(ms[1..])
  }

  lemma DenoteNil(t: Tree)
    ensures Denote(t) == Nil <==> t == NilTree
  {
  }

  /** An array denotes the table with its elements at 1, 2, 3, and so on, and
      nothing else. */
  lemma {:induction false} FilledAt(m: map<Key, Value>, n: nat, es: seq<Tree>, k: Key)
    requires ProperElements(es)
    ensures var inside := k.Index? && n <= k.i < n + |es|;
            && (k in Filled(m, n, es) <==> inside || k in m)
            && (k in Filled(m, n, es) ==> Filled(m, n, es)[k] == if inside then Denote(es[k.i - n]) else m[k])
    decreases |es|
  {
    if es != [] {
      DenoteNil(es[0]);
      FilledAt(Put(m, Index(n), Denote(es[0])), n + 1, es[1..], k);
    }
  }

  /** With distinct keys, an object denotes the table of exactly its members. */
  lemma {:induction false} AssignedAt(m: map<Key, Value>, ms: seq<Member>, k: Key)
    requires ProperMembers(ms) && DistinctKeys(ms)
    ensures forall i | 0 <= i < |ms| && k == Name(ms[i].key) ::
              k in Assigned(m, ms) && Assigned(m, ms)[k] == Denote(ms[i].value)
    ensures (forall i | 0 <= i < |ms| :: k != Name(ms[i].key)) ==>
              (k in Assigned(m, ms) <==> k in m) && (k in m ==> Assigned(m, ms)[k] == m[k])
    decreases |ms|
  {
    if ms != [] {
      DenoteNil(ms[0].value);
      var rest := ms[1..];
      assert forall i | 0 < i < |ms| :: ms[i] == rest[i - 1];
      AssignedAt(Put(m, Name(ms[0].key), Denote(ms[0].value)), rest, k);
    }
  }

  /** What a tree of an array denotes: a table with exactly its elements, at the
      indices from 1 on. */
  lemma ArrayDenotes(es: seq<Tree>, k: Key)
    requires Proper(ArrayTree(es))
    ensures Denote(ArrayTree(es)).Table?
    ensures var m := Denote(ArrayTree(es)).m;
            && (k in m <==> k.Index? && 1 <= k.i <= |es|)
            && (k in m ==> m[k] == Denote(es[k.i - 1]))
  {
    FilledAt(map[], 1, es, k);
  }

  /** Brackets, commas and colons, and no white space. */
  lemma PrintedArray(x: Tree, y: Tree, z: Tree)
    ensures Print(ArrayTree([])) == "[]" && Print(ArrayTree([x])) == "[" + Print(x) + "]"
    ensures Print(ArrayTree([x, y, z])) == "[" + (Print(x) + "," + Print(y) + "," + Print(z)) + "]"
  {
    PrintedThree(x, y, z);
    JoinThree(Print(x), Print(y), Print(z));
    PrintedFew(x);
  }

  lemma PrintedFew(x: Tree)
    ensures Print(ArrayTree([])) == "[]" && Print(ArrayTree([x])) == "[" + Print(x) + "]"
  {
    assert PrintElements([x]) == [Print(x)];
    assert "[" + "" + "]" == "[]";
  }

  lemma PrintedThree(x: Tree, y: Tree, z: Tree)
    ensures Print(ArrayTree([x, y, z])) == "[" + Join([Print(x), Print(y), Print(z)]) + "]"
  {
    hide Join;
    assert [x, y, z][1..] == [y, z] && [y, z][1..] == [z] && [z][1..] == [];
    ElementsStep([z]);
    ElementsStep([y, z]);
    ElementsStep([x, y, z]);
    assert PrintElements([x, y, z]) == [Print(x), Print(y), Print(z)];
  }

  lemma ElementsStep(es: seq<Tree>)
    requires es != []
    ensures PrintElements(es) == [Print(es[0])] + PrintElements(es[1..]) && PrintElements([]) == []
  {
  }

  lemma MembersStep(ms: seq<Member>)
    requires ms != []
    ensures PrintMembers(ms) == [PrintString(ms[0].key) + ":" + Print(ms[0].value)] + PrintMembers(ms[1..])
    ensures PrintMembers([]) == []
  {
  }

  lemma JoinThree(x: string, y: string, z: string)
    ensures Join([x, y, z]) == x + "," + y + "," + z
  {
    assert [x, y, z][1..] == [y, z] && [y, z][1..] == [z];
    assert Join([y, z]) == y + "," + z;
  }

  lemma PrintedObject(a: Member, b: Member)
    ensures var p, q := PrintString(a.key) + ":" + Print(a.value), PrintString(b.key) + ":" + Print(b.value);
            Print(ObjectTree([a])) == "{" + p + "}" && Print(ObjectTree([a, b])) == "{" + (p + "," + q) + "}"
  {
    hide PrintString;
    var p, q := PrintString(a.key) + ":" + Print(a.value), PrintString(b.key) + ":" + Print(b.value);
    assert [a, b][1..] == [b] && [a][1..] == [] && [b][1..] == [];
    MembersStep([a]);
    MembersStep([b]);
    MembersStep([a, b]);
    assert PrintMembers([a]) == [p] && PrintMembers([a, b]) == [p, q];
    assert Join([p, q]) == p + "," + q;
  }

  lemma PrintedPlain(b: bool)
    ensures Print(NilTree) == "null" && Print(BoolTree(b)) == if b then "true" else "false"
    ensures Print(NumTree(1905)) == "1905" && Print(NumTree(-20)) == "-20"
  {
    DecimalExamples();
  }
}
