/** Byte strings processed 8 bytes at a time, and ciphers that work that way. */
module Chunks {
  import opened Words

  type Chunk = c: seq<byte> | |c| == 8 witness [0, 0, 0, 0, 0, 0, 0, 0]

  /** A cipher over one chunk, under some key. */
  datatype Cipher = Cipher(encrypt: Chunk -> Chunk, decrypt: Chunk -> Chunk) {
    ghost predicate Inverts() {
      forall c: Chunk :: decrypt(encrypt(c)) == c && encrypt(decrypt(c)) == c
    }
  }

  function MapChunks(f: Chunk -> Chunk, s: seq<byte>): (r: seq<byte>)
    requires |s| % 8 == 0
    ensures |r| == |s|
  {
    if |s| == 0 then [] else MapChunks(f, s[..|s| - 8]) + f(s[|s| - 8..])
  }

  lemma {:induction false} MapChunksInverts(f: Chunk -> Chunk, g: Chunk -> Chunk, s: seq<byte>)
    requires |s| % 8 == 0
    requires forall c: Chunk :: g(f(c)) == c
    ensures MapChunks(g, MapChunks(f, s)) == s
  {
    if |s| > 0 {
      var n := |s| - 8;
      var last: Chunk := s[n..];
      var r := MapChunks(f, s);
      MapChunksInverts(f, g, s[..n]);
      assert r[..n] == MapChunks(f, s[..n]) && r[n..] == f(last);
      assert s[..n] + s[n..] == s;
    }
  }

  /** `s` with the `n` bytes at `at` mapped in place. */
  function MapWindow(f: Chunk -> Chunk, s: seq<byte>, at: nat, n: nat): (r: seq<byte>)
    requires n % 8 == 0 && at + n <= |s|
    ensures |r| == |s|
  {
    Splice(s, at, MapChunks(f, s[at..at + n]))
  }

  /** Nothing outside the window is touched, and the inverse loop over the same
      window restores the buffer, in both directions. */
  lemma MapWindowInverts(c: Cipher, s: seq<byte>, at: nat, n: nat)
    requires n % 8 == 0 && at + n <= |s| && c.Inverts()
    ensures MapWindow(c.decrypt, MapWindow(c.encrypt, s, at, n), at, n) == s
    ensures MapWindow(c.encrypt, MapWindow(c.decrypt, s, at, n), at, n) == s
    ensures forall i | 0 <= i < |s| && !(at <= i < at + n) :: MapWindow(c.encrypt, s, at, n)[i] == s[i]
    ensures forall i | 0 <= i < |s| && !(at <= i < at + n) :: MapWindow(c.decrypt, s, at, n)[i] == s[i]
  {
    var t := s[at..at + n];
    MapChunksInverts(c.encrypt, c.decrypt, t);
    MapChunksInverts(c.decrypt, c.encrypt, t);
    SpliceWindow(s, at, MapChunks(c.encrypt, t));
    SpliceWindow(s, at, MapChunks(c.decrypt, t));
  }

  lemma MapWindowEmpty(f: Chunk -> Chunk, s: seq<byte>, at: nat)
    requires at <= |s|
    ensures MapWindow(f, s, at, 0) == s
  {
  }

  /** One chunk further into a window at `at` of which `n` bytes are done. */
  lemma MapWindowStep(f: Chunk -> Chunk, s: seq<byte>, at: nat, n: nat)
    requires n % 8 == 0 && at + n + 8 <= |s|
    ensures
      var w := MapWindow(f, s, at, n);
      Splice(w, at + n, f(w[at + n..at + n + 8])) == MapWindow(f, s, at, n + 8)
  {
    hide Splice, MapChunks;
    var t := s[at..at + n + 8];
    var m := MapChunks(f, s[at..at + n]);
    SliceOfSlice(s, at, at + n + 8, 0, n);
    SliceOfSlice(s, at, at + n + 8, n, n + 8);
    SpliceBehind(s, at, m, at + n + 8);
    MapLast(f, t);
    SpliceTwice(s, at, m, f(t[n..]));
  }

  lemma MapLast(f: Chunk -> Chunk, s: seq<byte>)
    requires |s| % 8 == 0 && |s| > 0
    ensures MapChunks(f, s) == MapChunks(f, s[..|s| - 8]) + f(s[|s| - 8..])
  {
  }

  /** The number of bytes a chunk loop touches for a message of `n` bytes. */
  function WholeBlocks(n: nat): (r: nat)
    ensures n <= r < n + 8 && r % 8 == 0
    ensures forall m: nat {:trigger m % 8} | m < n && m % 8 == 0 :: m + 8 <= r
  {
    (n + 7) / 8 * 8
  }
}
