/** rDB_hash: the djb2 string hash, used by the slot table only as a cheap
    pre-filter before comparing key bytes. */
module Hashing {
  import opened Basics

  const Seed: nat := 5381

  /** What one key byte adds to the hash.  The C code reads the byte through
      a plain `char`, which is signed on x86-64: bytes 128..255 add b - 256,
      which unsigned long arithmetic turns into a wrap-around. */
  function CharValue(b: byte): (c: int)
    ensures -128 <= c < 128
    ensures c % 256 == b
  {
    if b < 128 then b else b - 256
  }

  /** The hash of a key: h := h * 33 + c for each byte in order, starting
      from 5381, every step reduced modulo the 64-bit word. */
  function Hash(s: seq<byte>): (h: nat)
    ensures h < WORD
  {
    if s == [] then Seed else (Hash(s[..|s| - 1]) * 33 + CharValue(s[|s| - 1])) % WORD
  }

  /** The same polynomial over unbounded integers, with no wrap-around. */
  function Horner(s: seq<byte>): int
  {
    if s == [] then Seed else Horner(s[..|s| - 1]) * 33 + CharValue(s[|s| - 1])
  }

  /** Reducing at every step is the same as reducing once at the end: the
      hash is the djb2 polynomial of the key modulo 2^64. */
  lemma {:induction false} HashIsHornerModWord(s: seq<byte>)
    ensures Hash(s) == Horner(s) % WORD
  {
    if s != [] {
      var p := s[..|s| - 1];
      HashIsHornerModWord(p);
      ModWordStep(Horner(p), CharValue(s[|s| - 1]));
    }
  }

  lemma ModWordStep(a: int, c: int)
    ensures ((a % WORD) * 33 + c) % WORD == (a * 33 + c) % WORD
  {
    var q, r := a / WORD, a % WORD;
    assert a == q * WORD + r;
    assert a * 33 + c == (r * 33 + c) + (q * 33) * WORD;
    ShiftByWord(r * 33 + c, q * 33);
  }

  lemma ShiftByWord(x: int, k: int)
    ensures (x + k * WORD) % WORD == x % WORD
  {
    var q, r := x / WORD, x % WORD;
    assert x + k * WORD == (q + k) * WORD + r;
  }

  /** The accumulator loop of rDB_hash, over the bytes before the terminator. */
  method ComputeHash(key: CStr) returns (h: nat)
    ensures h == Hash(key)
  {
    h := Seed;
    var i := 0;
    while i < |key|
      invariant 0 <= i <= |key|
      invariant h == Hash(key[..i])
    {
      h := (h * 33 + CharValue(key[i])) % WORD;
      i := i + 1;
      assert key[..i][..i - 1] == key[..i - 1];
    }
    assert key[..|key|] == key;
  }
}
