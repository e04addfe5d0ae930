// Little-endian words inside byte sequences and arrays.
module LittleEndian {

  type byte = x: int | 0 <= x < 256

  const TWO32: nat := 0x1_0000_0000
  const TWO64: nat := 0x1_0000_0000_0000_0000

  function Pow256(n: nat): (p: nat)
    ensures p > 0
  {
    if n == 0 then 1 else 256 * Pow256(n - 1)
  }

  // The value of the n bytes starting at position at.
  function Word(s: seq<byte>, at: nat, n: nat): (value: nat)
    requires at + n <= |s|
    ensures value < Pow256(n)
    decreases n
  {
    if n == 0 then 0 else s[at] + 256 * Word(s, at + 1, n - 1)
  }

  // The n low bytes of a value.
  function Encode(value: nat, n: nat): (bytes: seq<byte>)
    ensures |bytes| == n
    decreases n
  {
    if n == 0 then [] else [value % 256] + Encode(value / 256, n - 1)
  }

  // s with the bytes from position at on replaced.
  function Put(s: seq<byte>, at: nat, bytes: seq<byte>): (r: seq<byte>)
    requires at + |bytes| <= |s|
    ensures |r| == |s|
    ensures forall i :: 0 <= i < |s| ==> r[i] == if at <= i < at + |bytes| then bytes[i - at] else s[i]
  {
    s[..at] + bytes + s[at + |bytes|..]
  }

  lemma Pow256Values()
    ensures Pow256(2) == 0x1_0000 && Pow256(4) == TWO32 && Pow256(8) == TWO64
  {
    assert Pow256(4) == 256 * Pow256(3);
    assert Pow256(8) == 256 * Pow256(7);
    assert Pow256(6) == 256 * Pow256(5);
  }

  // A word depends on its own bytes only.
  lemma {:induction false} WordFrame(s: seq<byte>, t: seq<byte>, i: nat, j: nat, n: nat)
    requires i + n <= |s| && j + n <= |t| && s[i..i + n] == t[j..j + n]
    ensures Word(s, i, n) == Word(t, j, n)
    decreases n
  {
    if n > 0 {
      assert s[i] == s[i..i + n][0] && t[j] == t[j..j + n][0];
      assert s[i + 1..i + n] == s[i..i + n][1..] && t[j + 1..j + n] == t[j..j + n][1..];
      WordFrame(s, t, i + 1, j + 1, n - 1);
    }
  }

  lemma {:induction false} EncodeThenRead(value: nat, n: nat)
    requires value < Pow256(n)
    ensures Word(Encode(value, n), 0, n) == value
    decreases n
  {
    if n > 0 {
      EncodeThenRead(value / 256, n - 1);
      assert Encode(value, n)[1..n] == Encode(value / 256, n - 1);
      WordFrame(Encode(value, n), Encode(value / 256, n - 1), 1, 0, n - 1);
    }
  }

  lemma {:induction false} ReadThenEncode(s: seq<byte>, at: nat, n: nat)
    requires at + n <= |s|
    ensures Encode(Word(s, at, n), n) == s[at..at + n]
    decreases n
  {
    if n > 0 {
      ReadThenEncode(s, at + 1, n - 1);
      assert s[at..at + n] == [s[at]] + s[at + 1..at + n];
    }
  }

  // Reading back a word just written.
  lemma PutThenRead(s: seq<byte>, at: nat, value: nat, n: nat)
    requires at + n <= |s| && value < Pow256(n)
    ensures Word(Put(s, at, Encode(value, n)), at, n) == value
  {
    WordFrame(Put(s, at, Encode(value, n)), Encode(value, n), at, 0, n);
    EncodeThenRead(value, n);
  }

  // Two ranges of equal words are byte for byte equal.
  lemma EqualWords(s: seq<byte>, t: seq<byte>, at: nat, n: nat)
    requires at + n <= |s| && at + n <= |t| && Word(s, at, n) == Word(t, at, n)
    ensures s[at..at + n] == t[at..at + n]
  {
    ReadThenEncode(s, at, n);
    ReadThenEncode(t, at, n);
  }

  // The byte loop that stores a word, shared by the relocation and import patches.
  method Store(memory: array<byte>, at: nat, value: nat, n: nat)
    requires at + n <= memory.Length
    modifies memory
    ensures memory[..] == Put(old(memory[..]), at, Encode(value, n))
  {
    ghost var was := memory[..];
    var rest := value;
    for index := 0 to n
      invariant forall i :: 0 <= i < memory.Length && !(at <= i < at + index) ==> memory[i] == was[i]
      invariant Encode(value, n) == memory[at..at + index] + Encode(rest, n - index)
    {
      ghost var done := memory[at..at + index];
      memory[at + index] := rest % 256;
      rest := rest / 256;
      assert memory[at..at + index] == done;
      assert memory[at..at + index + 1] == done + [memory[at + index]];
    }
    assert Encode(value, n) == memory[at..at + n];
  }

  method Load(memory: array<byte>, at: nat, n: nat) returns (value: nat)
    requires at + n <= memory.Length
    ensures value == Word(memory[..], at, n)
  {
    value := 0;
    for index := n downto 0
      invariant value == Word(memory[..], at + index, n - index)
    {
      value := memory[at + index] + 256 * value;
    }
  }
}
